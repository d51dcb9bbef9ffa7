/** The file-name recogniser `IMAGE_PATTERN` (generate.py):
      ^(\d{4}-\d{2}-\d{2}) at (\d{2}\.\d{2}\.\d{2}) in (.+)\.(jpe?g|png|webp|gif)$
    compiled with `re.IGNORECASE`, written out as a matcher over characters.
    Everything before the location has a fixed width (26 characters), and an
    allowed extension never contains a dot, so the location is everything
    between " in " and the dot that starts the extension. */
module Pattern {
  import opened Types
  import opened Text

  /** Case-insensitive comparison of a character of the name with a character
      of the pattern, as Python's `re.IGNORECASE` does for a str pattern:
      ASCII letters match in either case, and the letter i also matches the
      dotted capital U+0130 and the dotless small U+0131. */
  predicate CharMatches(c: char, lit: char) {
    || c == lit
    || (IsLower(lit) && c as int == lit as int - 32)
    || (lit == 'i' && (c == '\U{130}' || c == '\U{131}'))
  }

  /** `s` matches the lower-case literal `lit` ignoring case. */
  predicate Matches(s: string, lit: string) {
    |s| == |lit| && forall k :: 0 <= k < |s| ==> CharMatches(s[k], lit[k])
  }

  /** `\d{4}-\d{2}-\d{2}` */
  predicate IsDate(s: string) {
    && |s| == 10
    && IsDigit(s[0]) && IsDigit(s[1]) && IsDigit(s[2]) && IsDigit(s[3]) && s[4] == '-'
    && IsDigit(s[5]) && IsDigit(s[6]) && s[7] == '-'
    && IsDigit(s[8]) && IsDigit(s[9])
  }

  /** `\d{2}\.\d{2}\.\d{2}` */
  predicate IsTime(s: string) {
    && |s| == 8
    && IsDigit(s[0]) && IsDigit(s[1]) && s[2] == '.'
    && IsDigit(s[3]) && IsDigit(s[4]) && s[5] == '.'
    && IsDigit(s[6]) && IsDigit(s[7])
  }

  /** `.+`: at least one character, none of them a newline. */
  predicate IsLocation(s: string) { |s| >= 1 && '\n' !in s }

  /** `jpe?g|png|webp|gif`, ignoring case. */
  predicate IsExtension(e: string) {
    Matches(e, "jpg") || Matches(e, "jpeg") || Matches(e, "png") || Matches(e, "webp") || Matches(e, "gif")
  }

  /** How a matching name decomposes: the four groups of the pattern
      (date, time, location, extension) and the two literal words between
      them as they are written in the name (their case may differ from the
      pattern's). */
  datatype Parts = Parts(date: string, atWord: string, time: string, inWord: string,
                         location: string, ext: string)

  predicate WellFormed(p: Parts) {
    && IsDate(p.date) && Matches(p.atWord, " at ") && IsTime(p.time)
    && Matches(p.inWord, " in ") && IsLocation(p.location) && IsExtension(p.ext)
  }

  /** The name a decomposition spells. */
  function Compose(p: Parts): string {
    p.date + p.atWord + p.time + p.inWord + p.location + "." + p.ext
  }

  /** The names the pattern accepts: a well-formed decomposition, optionally
      followed by one newline, which `$` lets through at the very end. */
  ghost predicate InLanguage(name: string) {
    exists p :: WellFormed(p) && (name == Compose(p) || name == Compose(p) + "\n")
  }

  /** Splits `<location>.<ext>` at the dot before an allowed extension. */
  function SplitExtension(rest: string): Option<(string, string)> {
    var n := |rest|;
    if n >= 6 && rest[n - 5] == '.' && IsExtension(rest[n - 4..]) then Some((rest[..n - 5], rest[n - 4..]))
    else if n >= 5 && rest[n - 4] == '.' && IsExtension(rest[n - 3..]) then Some((rest[..n - 4], rest[n - 3..]))
    else None
  }

  /** The pattern matched against all of `s`, from `^` to the end. */
  function MatchWhole(s: string): Option<Parts> {
    if |s| < 26 then None
    else
      var date, atWord, time, inWord := s[..10], s[10..14], s[14..22], s[22..26];
      if !(IsDate(date) && Matches(atWord, " at ") && IsTime(time) && Matches(inWord, " in ")) then None
      else match SplitExtension(s[26..])
        case None => None
        case Some((location, ext)) =>
          if '\n' in location then None else Some(Parts(date, atWord, time, inWord, location, ext))
  }

  /** `IMAGE_PATTERN.match(name)`: `$` matches at the end of the name or just
      before a newline that ends it. */
  function Match(name: string): Option<Parts> {
    match MatchWhole(name)
    case Some(p) => Some(p)
    case None =>
      if |name| > 0 && name[|name| - 1] == '\n' then MatchWhole(name[..|name| - 1]) else None
  }

  /** What the matcher returns is a well-formed decomposition of the name. */
  lemma MatchSound(name: string)
    ensures Match(name).Some? ==>
      var p := Match(name).value;
      WellFormed(p) && (name == Compose(p) || name == Compose(p) + "\n")
  {
    if MatchWhole(name).Some? {
      WholeSound(name);
    } else if |name| > 0 && name[|name| - 1] == '\n' {
      WholeSound(name[..|name| - 1]);
      assert name == name[..|name| - 1] + "\n";
    }
  }

  lemma WholeSound(s: string)
    ensures MatchWhole(s).Some? ==> WellFormed(MatchWhole(s).value) && s == Compose(MatchWhole(s).value)
  {
    if MatchWhole(s).Some? {
      var p := MatchWhole(s).value;
      var rest := s[26..];
      assert rest == p.location + "." + p.ext;
      assert s == s[..10] + s[10..14] + s[14..22] + s[22..26] + rest;
    }
  }

  /** Every well-formed decomposition is found again by the matcher, with or
      without one trailing newline. */
  lemma MatchComplete(p: Parts)
    requires WellFormed(p)
    ensures Match(Compose(p)) == Some(p)
    ensures Match(Compose(p) + "\n") == Some(p)
  {
    var s := Compose(p);
    WholeComplete(p);
    var t := s + "\n";
    assert t[..|t| - 1] == s;
    WholeRefusesNewline(t);
  }

  /** A string ending in a newline is never matched as a whole: the
      extension group comes last and holds no newline. */
  lemma WholeRefusesNewline(t: string)
    requires |t| > 0 && t[|t| - 1] == '\n'
    ensures MatchWhole(t) == None
  {
    if |t| >= 26 {
      var rest := t[26..];
      var n := |rest|;
      if n > 0 {
        assert rest[n - 1] == '\n';
        if n >= 6 { NoExtensionEndsInNewline(rest[n - 4..]); }
        if n >= 5 { NoExtensionEndsInNewline(rest[n - 3..]); }
      }
      assert SplitExtension(rest) == None;
    }
  }

  /** No allowed extension ends in a newline, so a trailing newline is never
      part of the extension group. */
  lemma NoExtensionEndsInNewline(e: string)
    requires |e| > 0 && e[|e| - 1] == '\n'
    ensures !IsExtension(e)
  {
  }

  lemma WholeComplete(p: Parts)
    requires WellFormed(p)
    ensures MatchWhole(Compose(p)) == Some(p)
  {
    var s := Compose(p);
    var rest := p.location + "." + p.ext;
    assert s == p.date + p.atWord + p.time + p.inWord + rest;
    assert s[..10] == p.date && s[10..14] == p.atWord && s[14..22] == p.time && s[22..26] == p.inWord;
    assert s[26..] == rest;
    SplitComposed(p.location, p.ext);
  }

  /** The location and an allowed extension are found again at the dot
      between them. */
  lemma SplitComposed(location: string, ext: string)
    requires IsLocation(location) && IsExtension(ext)
    ensures SplitExtension(location + "." + ext) == Some((location, ext))
  {
    var rest := location + "." + ext;
    var n := |rest|;
    if |ext| == 4 {
      assert rest[n - 5] == '.' && rest[n - 4..] == ext && rest[..n - 5] == location;
    } else {
      assert rest[n - 4] == '.' && rest[n - 3..] == ext && rest[..n - 4] == location;
      assert !IsExtension(rest[n - 4..]) by {
        assert rest[n - 4..][0] == '.';
      }
    }
  }

  /** Acceptance and exclusion: a name yields a decomposition exactly when it
      is in the pattern's language. */
  lemma MatchExactlyLanguage(name: string)
    ensures Match(name).Some? <==> InLanguage(name)
  {
    if Match(name).Some? {
      MatchSound(name);
    }
    if InLanguage(name) {
      var p :| WellFormed(p) && (name == Compose(p) || name == Compose(p) + "\n");
      MatchComplete(p);
    }
  }

  /** An example name is accepted, with its groups as written. */
  lemma MatchExample()
    ensures Match("2024-03-05 at 14.30.00 in Glasgow.jpg")
      == Some(Parts("2024-03-05", " at ", "14.30.00", " in ", "Glasgow", "jpg"))
  {
    var p := Parts("2024-03-05", " at ", "14.30.00", " in ", "Glasgow", "jpg");
    ExampleWellFormed(p);
    ExampleSpelled(p, "2024-03-05 at 14.30.00 in Glasgow.jpg");
    MatchComplete(p);
  }

  lemma ExampleSpelled(p: Parts, name: string)
    requires p == Parts("2024-03-05", " at ", "14.30.00", " in ", "Glasgow", "jpg")
    requires name == "2024-03-05 at 14.30.00 in Glasgow.jpg"
    ensures Compose(p) == name
  {
  }

  lemma ExampleSpelledUpperCase(p: Parts, name: string)
    requires p == Parts("2024-03-05", " AT ", "14.30.00", " In ", "Glasgow", "JPEG")
    requires name == "2024-03-05 AT 14.30.00 In Glasgow.JPEG"
    ensures Compose(p) == name
  {
  }

  lemma ExampleWellFormed(p: Parts)
    requires p.date == "2024-03-05" && p.time == "14.30.00" && p.location == "Glasgow"
    requires p.atWord in {" at ", " AT "} && p.inWord in {" in ", " In "} && p.ext in {"jpg", "JPEG"}
    ensures WellFormed(p)
  {
    assert Matches(p.atWord, " at ");
    assert Matches(p.inWord, " in ");
    assert Matches(p.ext, "jpg") || Matches(p.ext, "jpeg");
  }

  /** The literal words and the extension match in any case. */
  lemma MatchExampleUpperCase()
    ensures Match("2024-03-05 AT 14.30.00 In Glasgow.JPEG")
      == Some(Parts("2024-03-05", " AT ", "14.30.00", " In ", "Glasgow", "JPEG"))
  {
    var p := Parts("2024-03-05", " AT ", "14.30.00", " In ", "Glasgow", "JPEG");
    ExampleWellFormed(p);
    ExampleSpelledUpperCase(p, "2024-03-05 AT 14.30.00 In Glasgow.JPEG");
    MatchComplete(p);
  }

  /** An extension outside the allowed five is refused. */
  lemma MatchExampleRefused()
    ensures Match("2024-03-05 at 14.30.00 in Glasgow.bmp") == None
  {
    var s := "2024-03-05 at 14.30.00 in Glasgow.bmp";
    var rest := s[26..];
    var n := |rest|;
    assert n == 11;
    assert rest[n - 5] == 'w' && rest[n - 4] == '.' && rest[n - 3] == 'b';
    assert !IsExtension(rest[n - 3..]) by {
      assert rest[n - 3..][0] == 'b';
    }
    assert SplitExtension(rest) == None;
  }
}
