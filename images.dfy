/** `parse_images` (generate.py): the records built from the directory's
    entry names. The names are a parameter here, in the order the directory
    listing yields them. */
module Images {
  import opened Types
  import opened Text
  import opened Pattern
  import opened Sorting

  /** The tuple `(sort_key, date, time, location, filename)` of one accepted image. */
  datatype Image = Image(sortKey: string, date: string, time: string, location: string, filename: string)

  /** The key the list is sorted by (`lambda x: x[0]`). */
  function SortKey(img: Image): string { img.sortKey }

  /** The record one entry name yields, if the pattern accepts it: the date
      and time groups as written, the location group with surrounding
      whitespace stripped, and the name itself. */
  function ParseName(name: string): Option<Image> {
    match Match(name)
    case None => None
    case Some(p) => Some(Image(p.date + " " + p.time, p.date, p.time, Strip(p.location, IsSpace), name))
  }

  /** The records the names yield, in the order of the names. */
  function Accepted(names: seq<string>): seq<Image> {
    if names == [] then []
    else
      Accepted(names[..|names| - 1])
        + match ParseName(names[|names| - 1]) case None => [] case Some(img) => [img]
  }

  /** `parse_images()`: collect the accepted records in listing order, then
      sort them newest first with Python's stable `sort(reverse=True)`. */
  method ParseImages(names: seq<string>) returns (images: seq<Image>)
    ensures images == SortDesc(Accepted(names), SortKey)
    ensures SortedDesc(images, SortKey)
    ensures multiset(images) == multiset(Accepted(names))
    ensures forall k :: WithKey(images, k, SortKey) == WithKey(Accepted(names), k, SortKey)
    ensures forall img :: img in images <==> img.filename in names && ParseName(img.filename) == Some(img)
  {
    images := [];
    for i := 0 to |names|
      invariant images == Accepted(names[..i])
    {
      assert names[..i + 1][..i] == names[..i];
      var m := Match(names[i]);
      if m.Some? {
        var dateStr, timeStr := m.value.date, m.value.time;
        var location := Strip(m.value.location, IsSpace);
        var sortKey := dateStr + " " + timeStr;
        images := images + [Image(sortKey, dateStr, timeStr, location, names[i])];
      }
    }
    assert names[..|names|] == names;
    AcceptedMembers(names);
    SortDescCorrect(Accepted(names), SortKey);
    images := SortDesc(images, SortKey);
    forall img ensures img in images <==> img in Accepted(names) {
      assert img in images <==> img in multiset(images);
    }
  }

  /** Every accepted record comes from one of the names, and every name the
      pattern accepts contributes its record; a non-matching name contributes
      nothing. */
  lemma {:induction false} AcceptedMembers(names: seq<string>)
    ensures forall img :: img in Accepted(names) <==> img.filename in names && ParseName(img.filename) == Some(img)
  {
    if names != [] {
      var p, last := names[..|names| - 1], names[|names| - 1];
      assert names == p + [last];
      AcceptedMembers(p);
      forall img ensures img in Accepted(names) <==> img.filename in names && ParseName(img.filename) == Some(img) {
        if img.filename == last && ParseName(last) == Some(img) {
          assert img in Accepted(names);
        }
      }
    }
  }

  /** A name yields a record exactly when the pattern accepts it. */
  lemma ParseNameAccepts(name: string)
    ensures ParseName(name).Some? <==> InLanguage(name)
  {
    MatchExactlyLanguage(name);
  }

  /** Field extraction: for a name built from a well-formed decomposition,
      the record holds the date and time as written, the location stripped of
      surrounding whitespace, the original name, and the key "<date> <time>". */
  lemma ParseNameFields(p: Parts, name: string)
    requires WellFormed(p) && (name == Compose(p) || name == Compose(p) + "\n")
    ensures ParseName(name) == Some(Image(p.date + " " + p.time, p.date, p.time, Strip(p.location, IsSpace), name))
    ensures |ParseName(name).value.sortKey| == 19
  {
    MatchComplete(p);
  }

  /** The location may end up empty: a location group made only of
      whitespace is accepted by the pattern and stripped to nothing. */
  lemma ParseNameBlankLocation(p: Parts)
    requires WellFormed(p)
    requires forall k :: 0 <= k < |p.location| ==> IsSpace(p.location[k])
    ensures ParseName(Compose(p)).Some? && ParseName(Compose(p)).value.location == ""
  {
    ParseNameFields(p, Compose(p));
    assert Leading(p.location, IsSpace) == |p.location|;
  }

  /** Every record in the list holds a date and a time of the pattern's
      shape, its key is "<date> <time>", and its name is one of the names. */
  lemma AcceptedFields(names: seq<string>, img: Image)
    requires img in Accepted(names)
    ensures IsDate(img.date) && IsTime(img.time)
    ensures img.sortKey == img.date + " " + img.time
    ensures img.filename in names
  {
    AcceptedMembers(names);
    MatchSound(img.filename);
  }
}
