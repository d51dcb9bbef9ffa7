/** `make_anchor(date_str, time_str, location)` (generate.py): the fragment
    identifier of one sighting, built from the slug
    `<date>-<time without dots>-<location>` by replacing every character
    outside `[a-zA-Z0-9-]` with a dash, lower-casing, and stripping dashes
    from both ends. */
module Anchor {
  import opened Types
  import opened Text
  import Pattern

  /** `s.replace(c, "")`. */
  function RemoveChar(s: string, c: char): (r: string)
    ensures c !in r
    ensures |r| <= |s|
  {
    if s == [] then [] else (if s[0] == c then [] else [s[0]]) + RemoveChar(s[1..], c)
  }

  lemma {:induction false} RemoveCharAppend(a: string, b: string, c: char)
    ensures RemoveChar(a + b, c) == RemoveChar(a, c) + RemoveChar(b, c)
  {
    if a == [] {
      assert a + b == b;
    } else {
      assert (a + b)[0] == a[0];
      assert (a + b)[1..] == a[1..] + b;
      RemoveCharAppend(a[1..], b, c);
      AppendAssoc(if a[0] == c then [] else [a[0]], RemoveChar(a[1..], c), RemoveChar(b, c));
    }
  }

  /** A string without the character is left as it is. */
  lemma {:induction false} RemoveCharAbsent(s: string, c: char)
    requires c !in s
    ensures RemoveChar(s, c) == s
  {
    if s != [] {
      RemoveCharAbsent(s[1..], c);
      assert s == [s[0]] + s[1..];
    }
  }

  /** Removing the character is the same as cutting the string at it and
      gluing the pieces: only the occurrences of `c` disappear. */
  lemma RemoveCharAt(a: string, c: char, b: string)
    ensures RemoveChar(a + [c] + b, c) == RemoveChar(a, c) + RemoveChar(b, c)
  {
    assert RemoveChar(a + [c] + b, c) == RemoveChar(a + [c], c) + RemoveChar(b, c) by {
      RemoveCharAppend(a + [c], b, c);
    }
    assert RemoveChar(a + [c], c) == RemoveChar(a, c) by {
      RemoveCharAppend(a, [c], c);
      assert RemoveChar([c], c) == [] by {
        assert [c][0] == c && [c][1..] == [];
      }
      assert RemoveChar(a, c) + [] == RemoveChar(a, c);
    }
  }

  /** A pattern-accepted time `HH.MM.SS` loses its two dots: `HHMMSS`. */
  lemma TimeWithoutDots(t: string)
    requires Pattern.IsTime(t)
    ensures RemoveChar(t, '.') == t[..2] + t[3..5] + t[6..8]
  {
    assert t == t[..2] + ['.'] + (t[3..5] + ['.'] + t[6..8]);
    RemoveCharAt(t[..2], '.', t[3..5] + ['.'] + t[6..8]);
    RemoveCharAt(t[3..5], '.', t[6..8]);
    RemoveCharAbsent(t[..2], '.');
    RemoveCharAbsent(t[3..5], '.');
    RemoveCharAbsent(t[6..8], '.');
  }

  /** The characters the class `[a-zA-Z0-9-]` keeps. */
  predicate Allowed(c: char) { IsAsciiLetter(c) || IsDigit(c) || c == '-' }

  /** `re.sub(r"[^a-zA-Z0-9-]", "-", s)`: the class matches one character at
      a time, so each character is replaced on its own. */
  function ReplaceDisallowed(s: string): (r: string)
    ensures |r| == |s|
    ensures forall i :: 0 <= i < |s| ==> r[i] == (if Allowed(s[i]) then s[i] else '-')
  {
    if s == [] then [] else [if Allowed(s[0]) then s[0] else '-'] + ReplaceDisallowed(s[1..])
  }

  /** `lower()`. After the substitution every character is an ASCII letter,
      digit or dash, where Python's `lower` is the ASCII one. */
  function Lower(s: string): (r: string)
    ensures |r| == |s|
    ensures forall i :: 0 <= i < |s| ==> r[i] == AsciiLower(s[i])
  {
    if s == [] then [] else [AsciiLower(s[0])] + Lower(s[1..])
  }

  predicate IsDash(c: char) { c == '-' }

  /** The slug before cleaning. */
  function Slug(date: string, time: string, location: string): string {
    date + "-" + RemoveChar(time, '.') + "-" + location
  }

  /** The cleaning `re.sub(...).lower().strip("-")`. */
  function Normalize(s: string): string {
    Strip(Lower(ReplaceDisallowed(s)), IsDash)
  }

  function MakeAnchor(date: string, time: string, location: string): string {
    Normalize(Slug(date, time, location))
  }

  /** What an anchor may contain: lower-case ASCII letters, digits and dashes. */
  predicate IsAnchorChar(c: char) { IsLower(c) || IsDigit(c) || c == '-' }

  /** A cleaned string uses only anchor characters, neither starts nor ends
      with a dash, and is no longer than what it was made from. */
  lemma NormalizeShape(s: string)
    ensures forall k :: 0 <= k < |Normalize(s)| ==> IsAnchorChar(Normalize(s)[k])
    ensures Normalize(s) != [] ==> Normalize(s)[0] != '-' && Normalize(s)[|Normalize(s)| - 1] != '-'
    ensures |Normalize(s)| <= |s|
  {
    var m := Lower(ReplaceDisallowed(s));
    var r := Normalize(s);
    var i := Leading(m, IsDash);
    CleanedChars(s);
    forall k | 0 <= k < |r| ensures IsAnchorChar(r[k]) {
      assert r[k] == m[i + k];
    }
  }

  /** The substitution and the lower-casing leave only anchor characters. */
  lemma CleanedChars(s: string)
    ensures forall j :: 0 <= j < |s| ==> IsAnchorChar(Lower(ReplaceDisallowed(s))[j])
  {
    var r := ReplaceDisallowed(s);
    forall j | 0 <= j < |s| ensures IsAnchorChar(Lower(r)[j]) {
      assert Allowed(r[j]);
    }
  }

  /** The strings cleaning leaves unchanged are exactly the well-formed
      anchors. */
  lemma NormalizeFixedPoints(s: string)
    ensures Normalize(s) == s <==>
      (forall k :: 0 <= k < |s| ==> IsAnchorChar(s[k])) && (s != [] ==> s[0] != '-' && s[|s| - 1] != '-')
  {
    NormalizeShape(s);
    if (forall k :: 0 <= k < |s| ==> IsAnchorChar(s[k])) && (s != [] ==> s[0] != '-' && s[|s| - 1] != '-') {
      var m := Lower(ReplaceDisallowed(s));
      assert m == s by {
        forall k | 0 <= k < |s| ensures m[k] == s[k] {
          assert IsAnchorChar(s[k]);
        }
      }
      if s != [] {
        StripKeeps(s, IsDash);
      }
    }
  }

  /** Cleaning is idempotent: an anchor cleaned again is the same anchor. */
  lemma NormalizeIdempotent(s: string)
    ensures Normalize(Normalize(s)) == Normalize(s)
  {
    NormalizeShape(s);
    NormalizeFixedPoints(Normalize(s));
  }

  lemma {:induction false} ReplaceAppend(a: string, b: string)
    ensures ReplaceDisallowed(a + b) == ReplaceDisallowed(a) + ReplaceDisallowed(b)
  {
    if a == [] {
      assert a + b == b;
    } else {
      assert (a + b)[0] == a[0] && (a + b)[1..] == a[1..] + b;
      ReplaceAppend(a[1..], b);
      AppendAssoc([if Allowed(a[0]) then a[0] else '-'], ReplaceDisallowed(a[1..]), ReplaceDisallowed(b));
    }
  }

  lemma {:induction false} LowerAppend(a: string, b: string)
    ensures Lower(a + b) == Lower(a) + Lower(b)
  {
    if a == [] {
      assert a + b == b;
    } else {
      assert (a + b)[0] == a[0] && (a + b)[1..] == a[1..] + b;
      LowerAppend(a[1..], b);
      AppendAssoc([AsciiLower(a[0])], Lower(a[1..]), Lower(b));
    }
  }

  /** Trailing removable characters are only taken from the part after a
      prefix whose last character stays. */
  lemma {:induction false} StripEndAfter(p: string, x: string, strip: char -> bool)
    requires p != [] && !strip(p[|p| - 1])
    ensures StripEnd(p + x, strip) == p + StripEnd(x, strip)
    decreases |x|
  {
    if x == [] {
      assert p + x == p;
    } else if strip(x[|x| - 1]) {
      assert (p + x)[..|p + x| - 1] == p + x[..|x| - 1];
      StripEndAfter(p, x[..|x| - 1], strip);
    } else {
      assert (p + x)[|p + x| - 1] == x[|x| - 1];
    }
  }

  predicate DigitsAndDashes(s: string) { forall k :: 0 <= k < |s| ==> IsDigit(s[k]) || s[k] == '-' }

  /** Digits and dashes pass the cleaning's substitution and lower-casing unchanged. */
  lemma CleanKeeps(s: string)
    requires DigitsAndDashes(s)
    ensures Lower(ReplaceDisallowed(s)) == s
  {
    var m := Lower(ReplaceDisallowed(s));
    forall k | 0 <= k < |s| ensures m[k] == s[k] {
      assert IsDigit(s[k]) || s[k] == '-';
    }
  }

  /** The part of the slug made from the date and the time. */
  lemma RecordPrefix(date: string, time: string)
    requires Pattern.IsDate(date) && Pattern.IsTime(time)
    ensures var p := date + "-" + time[..2] + time[3..5] + time[6..8];
      |p| == 17 && DigitsAndDashes(p) && IsDigit(p[0]) && IsDigit(p[16])
  {
    var p := date + "-" + time[..2] + time[3..5] + time[6..8];
    forall k | 0 <= k < |p| ensures IsDigit(p[k]) || p[k] == '-' {
      if k < 10 {
        assert p[k] == date[k];
      } else if k == 10 {
        assert p[k] == '-';
      } else if k < 13 {
        assert p[k] == time[k - 11];
      } else if k < 15 {
        assert p[k] == time[k - 10];
      } else {
        assert p[k] == time[k - 9];
      }
    }
    assert p[0] == date[0] && p[16] == time[7];
  }

  /** The anchor of a record: the date, a dash and the six digits of the
      time are kept as they are; what follows is the cleaned location with its
      separating dash, where only the dashes at the very end are stripped. */
  lemma AnchorOfRecord(date: string, time: string, location: string)
    requires Pattern.IsDate(date) && Pattern.IsTime(time)
    ensures MakeAnchor(date, time, location)
      == date + "-" + time[..2] + time[3..5] + time[6..8]
         + StripEnd(Lower(ReplaceDisallowed("-" + location)), IsDash)
  {
    TimeWithoutDots(time);
    var p := date + "-" + time[..2] + time[3..5] + time[6..8];
    var y := "-" + location;
    assert Slug(date, time, location) == p + y;
    RecordPrefix(date, time);
    ReplaceAppend(p, y);
    LowerAppend(ReplaceDisallowed(p), ReplaceDisallowed(y));
    CleanKeeps(p);
    var x := Lower(ReplaceDisallowed(y));
    var m := p + x;
    assert Lower(ReplaceDisallowed(Slug(date, time, location))) == m;
    assert m[0] == p[0];
    assert Leading(m, IsDash) == 0;
    assert m[0..] == m;
    StripEndAfter(p, x, IsDash);
  }

  /** The record's anchor always begins with its date and the six digits of
      its time, so records taken at different moments get different anchors. */
  lemma AnchorPrefix(date: string, time: string, location: string)
    requires Pattern.IsDate(date) && Pattern.IsTime(time)
    ensures |MakeAnchor(date, time, location)| >= 17
    ensures MakeAnchor(date, time, location)[..17] == date + "-" + time[..2] + time[3..5] + time[6..8]
  {
    AnchorOfRecord(date, time, location);
  }

  /** The anchor of an example record. */
  lemma AnchorExample(date: string, time: string, location: string)
    requires date == "2024-03-05" && time == "14.30.00" && location == "Glasgow"
    ensures MakeAnchor(date, time, location) == "2024-03-05-143000-glasgow"
  {
    var x := ExampleLocation(location);
    assert MakeAnchor(date, time, location) == date + "-" + time[..2] + time[3..5] + time[6..8] + x by {
      assert Pattern.IsDate(date) && Pattern.IsTime(time);
      AnchorOfRecord(date, time, location);
    }
    ExampleJoined(date, time, x);
  }

  lemma ExampleJoined(date: string, time: string, x: string)
    requires date == "2024-03-05" && time == "14.30.00" && x == "-glasgow"
    ensures date + "-" + time[..2] + time[3..5] + time[6..8] + x == "2024-03-05-143000-glasgow"
  {
    assert time[..2] == "14" && time[3..5] == "30" && time[6..8] == "00";
  }

  lemma ExampleLocation(location: string) returns (x: string)
    requires location == "Glasgow"
    ensures x == "-glasgow" && StripEnd(Lower(ReplaceDisallowed("-" + location)), IsDash) == x
  {
    x := Lower(ReplaceDisallowed("-" + location));
    assert |x| == 8;
    assert x[0] == '-' && x[1] == 'g' && x[2] == 'l' && x[3] == 'a';
    assert x[4] == 's' && x[5] == 'g' && x[6] == 'o' && x[7] == 'w';
    assert x == "-glasgow";
  }

  /** Different locations can share an anchor: two locations that differ only
      in a character outside `[a-zA-Z0-9-]` give the same anchor. */
  lemma AnchorCollision(date: string, time: string, a: string, b: string, i: nat)
    requires |a| == |b| && i < |a|
    requires forall k :: 0 <= k < |a| && k != i ==> a[k] == b[k]
    requires !Allowed(a[i]) && !Allowed(b[i])
    ensures MakeAnchor(date, time, a) == MakeAnchor(date, time, b)
  {
    var ra, rb := ReplaceDisallowed(a), ReplaceDisallowed(b);
    assert ra == rb;
    ReplaceAppend(date + "-" + RemoveChar(time, '.') + "-", a);
    ReplaceAppend(date + "-" + RemoveChar(time, '.') + "-", b);
    assert Slug(date, time, a) == date + "-" + RemoveChar(time, '.') + "-" + a;
    assert Slug(date, time, b) == date + "-" + RemoveChar(time, '.') + "-" + b;
  }

  /** The same happens for letters that differ only in case. */
  lemma AnchorCaseFolded(date: string, time: string, a: string, b: string)
    requires |a| == |b|
    requires forall k :: 0 <= k < |a| ==> AsciiLower(a[k]) == AsciiLower(b[k]) && (Allowed(a[k]) <==> Allowed(b[k]))
    ensures MakeAnchor(date, time, a) == MakeAnchor(date, time, b)
  {
    var s := date + "-" + RemoveChar(time, '.') + "-";
    ReplaceAppend(s, a);
    ReplaceAppend(s, b);
    LowerAppend(ReplaceDisallowed(s), ReplaceDisallowed(a));
    LowerAppend(ReplaceDisallowed(s), ReplaceDisallowed(b));
    assert Lower(ReplaceDisallowed(a)) == Lower(ReplaceDisallowed(b));
    assert Slug(date, time, a) == s + a && Slug(date, time, b) == s + b;
  }
}
