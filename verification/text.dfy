/** The two string operations of `java.lang.String` the loader leans on:
    `trim()` (strip every leading and trailing char whose code is at most
    U+0020) and `toLowerCase(Locale.ROOT)`, plus the `contains` substring test
    and the trim-then-lowercase key used for genders and department names. */
module Text {

  /** `String.trim` strips exactly the chars at or below the space char. */
  predicate IsBlankChar(c: char) {
    c <= ' '
  }

  predicate IsBlank(s: string) {
    forall i :: 0 <= i < |s| ==> IsBlankChar(s[i])
  }

  /** A string `trim()` leaves unchanged. */
  predicate IsTrimmed(s: string) {
    s == [] || (!IsBlankChar(s[0]) && !IsBlankChar(s[|s| - 1]))
  }

  function TrimStart(s: string): (r: string)
    ensures |r| <= |s|
    ensures r == [] || !IsBlankChar(r[0])
    decreases |s|
  {
    if s != [] && IsBlankChar(s[0]) then TrimStart(s[1..]) else s
  }

  function TrimEnd(s: string): (r: string)
    ensures |r| <= |s|
    ensures r == [] || !IsBlankChar(r[|r| - 1])
    decreases |s|
  {
    if s != [] && IsBlankChar(s[|s| - 1]) then TrimEnd(s[..|s| - 1]) else s
  }

  /** Java's `String.trim()`. */
  function Trim(s: string): (r: string)
    ensures IsTrimmed(r)
    ensures |r| <= |s|
  {
    TrimEndStripsBlanks(TrimStart(s));
    TrimEnd(TrimStart(s))
  }

  /** `trim()` empties exactly the blank strings. */
  lemma TrimEmptyIffBlank(s: string)
    ensures Trim(s) == [] <==> IsBlank(s)
  {
    TrimStartStripsBlanks(s);
    TrimEndStripsBlanks(TrimStart(s));
    if Trim(s) == [] {
      assert TrimStart(s) == [];
    }
  }

  /** `trim()` leaves exactly the trimmed strings unchanged. */
  lemma TrimFixesTrimmed(s: string)
    ensures Trim(s) == s <==> IsTrimmed(s)
  {
    if IsTrimmed(s) && s != [] {
      assert TrimStart(s) == s;
      assert TrimEnd(s) == s;
    }
  }

  /** `TrimStart` drops a blank prefix and keeps the rest. */
  lemma {:induction false} TrimStartStripsBlanks(s: string)
    ensures TrimStart(s) == s[|s| - |TrimStart(s)|..]
    ensures forall i :: 0 <= i < |s| - |TrimStart(s)| ==> IsBlankChar(s[i])
    decreases |s|
  {
    if s != [] && IsBlankChar(s[0]) {
      TrimStartStripsBlanks(s[1..]);
      assert forall i :: 1 <= i < |s| ==> s[1..][i - 1] == s[i];
    }
  }

  /** `TrimEnd` drops a blank suffix and keeps the rest. */
  lemma {:induction false} TrimEndStripsBlanks(s: string)
    ensures TrimEnd(s) == s[..|TrimEnd(s)|]
    ensures forall i :: |TrimEnd(s)| <= i < |s| ==> IsBlankChar(s[i])
    decreases |s|
  {
    if s != [] && IsBlankChar(s[|s| - 1]) {
      TrimEndStripsBlanks(s[..|s| - 1]);
      assert forall i :: 0 <= i < |s| - 1 ==> s[..|s| - 1][i] == s[i];
    }
  }

  lemma TrimIdempotent(s: string)
    ensures Trim(Trim(s)) == Trim(s)
  {
    TrimFixesTrimmed(Trim(s));
  }

  lemma {:induction false} TrimStartBlankPrefix(ws: string, s: string)
    requires IsBlank(ws)
    ensures TrimStart(ws + s) == TrimStart(s)
    decreases |ws|
  {
    if ws != [] {
      var t := ws + s;
      assert t[0] == ws[0];
      assert TrimStart(t) == TrimStart(t[1..]);
      assert t[1..] == ws[1..] + s;
      TrimStartBlankPrefix(ws[1..], s);
    } else {
      assert ws + s == s;
    }
  }

  lemma {:induction false} TrimEndBlankSuffix(s: string, ws: string)
    requires IsBlank(ws)
    ensures TrimEnd(s + ws) == TrimEnd(s)
    decreases |ws|
  {
    if ws != [] {
      var t := s + ws;
      assert t[|t| - 1] == ws[|ws| - 1];
      assert TrimEnd(t) == TrimEnd(t[..|t| - 1]);
      assert t[..|t| - 1] == s + ws[..|ws| - 1];
      TrimEndBlankSuffix(s, ws[..|ws| - 1]);
    } else {
      assert s + ws == s;
    }
  }

  lemma {:induction false} TrimStartAppend(s: string, t: string)
    ensures TrimStart(s) != [] ==> TrimStart(s + t) == TrimStart(s) + t
    ensures TrimStart(s) == [] ==> TrimStart(s + t) == TrimStart(t)
    decreases |s|
  {
    if s == [] {
      assert s + t == t;
    } else if IsBlankChar(s[0]) {
      assert (s + t)[1..] == s[1..] + t;
      TrimStartAppend(s[1..], t);
    }
  }

  /** Surrounding blanks never matter to `trim()`. */
  lemma TrimIgnoresPadding(left: string, s: string, right: string)
    requires IsBlank(left) && IsBlank(right)
    ensures Trim(left + s + right) == Trim(s)
  {
    assert left + s + right == left + (s + right);
    TrimStartBlankPrefix(left, s + right);
    TrimStartAppend(s, right);
    if TrimStart(s) != [] {
      TrimEndBlankSuffix(TrimStart(s), right);
    } else {
      TrimStartBlankPrefix(right, []);
      assert right + [] == right;
    }
  }

  /** `String.toLowerCase(Locale.ROOT)`, one char at a time, for the capitals
      of ASCII, Latin-1 and basic Cyrillic; other chars are left unchanged
      (see README, Left out). */
  function LowerChar(c: char): char {
    if 'A' <= c <= 'Z' then (c as int + 0x20) as char
    else if '\U{00C0}' <= c <= '\U{00DE}' && c != '\U{00D7}' then (c as int + 0x20) as char
    else if '\U{0400}' <= c <= '\U{040F}' then (c as int + 0x50) as char
    else if '\U{0410}' <= c <= '\U{042F}' then (c as int + 0x20) as char
    else c
  }

  /** Applies `f` to every char, as `toLowerCase` and `replace(char, char)` do. */
  function MapChars(f: char -> char, s: string): (r: string)
    ensures |r| == |s|
    ensures forall i :: 0 <= i < |s| ==> r[i] == f(s[i])
  {
    seq(|s|, i requires 0 <= i < |s| => f(s[i]))
  }

  /** `f` neither creates nor removes a blank. */
  ghost predicate KeepsBlanks(f: char -> char) {
    forall c :: IsBlankChar(f(c)) <==> IsBlankChar(c)
  }

  lemma {:induction false} MapTrimStart(f: char -> char, s: string)
    requires KeepsBlanks(f)
    ensures MapChars(f, TrimStart(s)) == TrimStart(MapChars(f, s))
    decreases |s|
  {
    var m := MapChars(f, s);
    if s != [] {
      assert IsBlankChar(m[0]) <==> IsBlankChar(s[0]);
    }
    if s != [] && IsBlankChar(s[0]) {
      assert m[1..] == MapChars(f, s[1..]);
      MapTrimStart(f, s[1..]);
    }
  }

  lemma {:induction false} MapTrimEnd(f: char -> char, s: string)
    requires KeepsBlanks(f)
    ensures MapChars(f, TrimEnd(s)) == TrimEnd(MapChars(f, s))
    decreases |s|
  {
    var m := MapChars(f, s);
    if s != [] {
      assert IsBlankChar(m[|m| - 1]) <==> IsBlankChar(s[|s| - 1]);
    }
    if s != [] && IsBlankChar(s[|s| - 1]) {
      assert m[..|s| - 1] == MapChars(f, s[..|s| - 1]);
      MapTrimEnd(f, s[..|s| - 1]);
    }
  }

  /** A char map that keeps blanks commutes with `trim()`. */
  lemma MapTrim(f: char -> char, s: string)
    requires KeepsBlanks(f)
    ensures MapChars(f, Trim(s)) == Trim(MapChars(f, s))
  {
    MapTrimStart(f, s);
    MapTrimEnd(f, TrimStart(s));
  }

  /** `String.toLowerCase(Locale.ROOT)`: char by char. */
  function Lower(s: string): string {
    MapChars(LowerChar, s)
  }

  lemma LowerIdempotent(s: string)
    ensures Lower(Lower(s)) == Lower(s)
  {
  }

  /** Lowercasing never creates or removes a blank, so it commutes with `trim()`. */
  lemma LowerTrim(s: string)
    ensures Lower(Trim(s)) == Trim(Lower(s))
  {
    LowerCharKeepsBlanks();
    MapTrim(LowerChar, s);
  }

  lemma LowerCharKeepsBlanks()
    ensures KeepsBlanks(LowerChar)
  {
    forall c: char ensures IsBlankChar(LowerChar(c)) <==> IsBlankChar(c) {
      if c <= ' ' {
        assert LowerChar(c) == c;
      }
    }
  }

  /** `s.trim().toLowerCase(Locale.ROOT)`: the key under which genders are
      looked up and departments are deduplicated. */
  function Normalize(s: string): (r: string)
    ensures IsTrimmed(r) && |r| <= |s|
    ensures Lower(r) == r
  {
    var t := Trim(s);
    LowerCharKeepsBlanks();
    LowerIdempotent(t);
    Lower(t)
  }

  /** The key ignores letter case and surrounding blanks, and normalizing a key
      again changes nothing. */
  lemma NormalizeIgnoresCaseAndPadding(left: string, s: string, right: string)
    requires IsBlank(left) && IsBlank(right)
    ensures Normalize(left + s + right) == Normalize(s)
    ensures Normalize(Lower(s)) == Normalize(s)
    ensures Normalize(Normalize(s)) == Normalize(s)
  {
    TrimIgnoresPadding(left, s, right);
    LowerTrim(s);
    LowerIdempotent(Trim(s));
    LowerTrim(Trim(s));
    TrimIdempotent(s);
  }

  predicate OccursAt(s: string, t: string, i: int) {
    0 <= i && i + |t| <= |s| && s[i..i + |t|] == t
  }

  /** `String.contains`. */
  function Contains(s: string, t: string): (r: bool)
    ensures r <==> exists i :: OccursAt(s, t, i)
    decreases |s|
  {
    if |s| < |t| then false
    else if s[..|t|] == t then
      assert OccursAt(s, t, 0);
      true
    else
      var r := Contains(s[1..], t);
      assert r ==> exists i :: OccursAt(s, t, i) by {
        if r {
          var i :| OccursAt(s[1..], t, i);
          assert s[i + 1..i + 1 + |t|] == s[1..][i..i + |t|];
          assert OccursAt(s, t, i + 1);
        }
      }
      assert (exists i :: OccursAt(s, t, i)) ==> r by {
        if i :| OccursAt(s, t, i) {
          assert i != 0;
          assert s[1..][i - 1..i - 1 + |t|] == s[i..i + |t|];
          assert OccursAt(s[1..], t, i - 1);
        }
      }
      r
  }
}
