/**
 * The string functions of Go's standard library that the core calls:
 * `strings.TrimSpace`, `strings.Split` with a one-character separator,
 * `strings.HasPrefix`/`TrimPrefix`, and the UTF-8 length `len([]byte(s))`.
 * A Go string is modelled as the sequence of Unicode scalar values it encodes.
 */
module GoStrings {

  /** `unicode.IsSpace`: the Latin-1 spaces and Unicode's White_Space characters. */
  predicate IsSpace(c: char) {
    var u := c as int;
    (9 <= u <= 13) || u == 0x20 || u == 0x85 || u == 0xA0 || u == 0x1680
    || (0x2000 <= u <= 0x200A) || u == 0x2028 || u == 0x2029 || u == 0x202F
    || u == 0x205F || u == 0x3000
  }

  /** `s` with its leading white space removed. */
  function TrimLeft(s: string): (r: string)
    ensures |r| <= |s| && r == s[|s| - |r|..]
    ensures forall i :: 0 <= i < |s| - |r| ==> IsSpace(s[i])
    ensures r != [] ==> !IsSpace(r[0])
  {
    if s != [] && IsSpace(s[0]) then TrimLeft(s[1..]) else s
  }

  /** `s` with its trailing white space removed. */
  function TrimRight(s: string): (r: string)
    ensures |r| <= |s| && r == s[..|r|]
    ensures forall i :: |r| <= i < |s| ==> IsSpace(s[i])
    ensures r != [] ==> !IsSpace(r[|r| - 1])
  {
    if s != [] && IsSpace(s[|s| - 1]) then TrimRight(s[..|s| - 1]) else s
  }

  /** The number of white-space characters `s` starts with. */
  function LeadingSpaces(s: string): (n: nat)
    ensures n <= |s|
  {
    |s| - |TrimLeft(s)|
  }

  /**
   * `strings.TrimSpace`: the infix of `s` that starts after its leading white space
   * and stops before its trailing white space, and neither starts nor ends with white space.
   */
  function TrimSpace(s: string): (r: string)
    ensures var a := LeadingSpaces(s);
      && a + |r| <= |s| && r == s[a..a + |r|]
      && (forall i :: 0 <= i < a ==> IsSpace(s[i]))
      && (forall i :: a + |r| <= i < |s| ==> IsSpace(s[i]))
    ensures r != [] ==> !IsSpace(r[0]) && !IsSpace(r[|r| - 1])
  {
    var l := TrimLeft(s);
    var r := TrimRight(l);
    TrimBothSlice(s, l, r);
    TrimBothTrailing(s, l, r);
    TrimBothEnds(l, r);
    r
  }

  lemma TrimBothSlice(s: string, l: string, r: string)
    requires |l| <= |s| && l == s[|s| - |l|..] && |r| <= |l| && r == l[..|r|]
    ensures |s| - |l| + |r| <= |s| && r == s[|s| - |l|..|s| - |l| + |r|]
  {
    assert r == s[|s| - |l|..][..|r|];
  }

  lemma TrimBothTrailing(s: string, l: string, r: string)
    requires |l| <= |s| && l == s[|s| - |l|..] && |r| <= |l|
    requires forall i :: |r| <= i < |l| ==> IsSpace(l[i])
    ensures forall i :: |s| - |l| + |r| <= i < |s| ==> IsSpace(s[i])
  {
    forall i | |s| - |l| + |r| <= i < |s| ensures IsSpace(s[i]) {
      assert s[i] == l[i - (|s| - |l|)];
    }
  }

  lemma TrimBothEnds(l: string, r: string)
    requires |r| <= |l| && r == l[..|r|]
    requires l != [] ==> !IsSpace(l[0])
    requires r != [] ==> !IsSpace(r[|r| - 1])
    ensures r != [] ==> !IsSpace(r[0]) && !IsSpace(r[|r| - 1])
  {
    if r != [] {
      assert r[0] == l[0];
    }
  }

  /** A string that neither starts nor ends with white space is its own trimming. */
  lemma TrimSpaceUnchanged(s: string)
    requires s != [] && !IsSpace(s[0]) && !IsSpace(s[|s| - 1])
    ensures TrimSpace(s) == s
  {
    assert TrimLeft(s) == s;
    assert TrimRight(s) == s;
  }

  /** `strings.Split(s, string(sep))`: the pieces between occurrences of `sep`. */
  function Split(s: string, sep: char): (parts: seq<string>)
    ensures |parts| >= 1
    ensures forall i :: 0 <= i < |parts| ==> sep !in parts[i]
    ensures |parts| > 1 <==> sep in s
  {
    if s == [] then [""]
    else
      var init := Split(s[..|s| - 1], sep);
      var c := s[|s| - 1];
      assert s == s[..|s| - 1] + [c];
      if c == sep then init + [""]
      else init[..|init| - 1] + [init[|init| - 1] + [c]]
  }

  /** `strings.Join(parts, string(sep))`. */
  function Join(parts: seq<string>, sep: char): string
    requires |parts| >= 1
  {
    if |parts| == 1 then parts[0]
    else Join(parts[..|parts| - 1], sep) + [sep] + parts[|parts| - 1]
  }

  /** Joining the pieces of a split gives back the string. */
  lemma {:induction false} JoinSplit(s: string, sep: char)
    ensures Join(Split(s, sep), sep) == s
  {
    if s != [] {
      var t, c := s[..|s| - 1], s[|s| - 1];
      assert s == t + [c];
      JoinSplit(t, sep);
      var init := Split(t, sep);
      if c != sep && |init| > 1 {
        var parts := Split(s, sep);
        assert parts[..|parts| - 1] == init[..|init| - 1];
      }
    }
  }

  /** Appending a separator and a separator-free piece appends that piece to the split. */
  lemma {:induction false} SplitAppend(p: string, sep: char, d: string)
    requires sep !in d
    ensures Split(p + [sep] + d, sep) == Split(p, sep) + [d]
  {
    if d == [] {
      assert (p + [sep] + d)[..|p| + 1 - 1] == p;
    } else {
      var d', c := d[..|d| - 1], d[|d| - 1];
      var s := p + [sep] + d;
      assert s[..|s| - 1] == p + [sep] + d';
      assert s[|s| - 1] == c;
      SplitAppend(p, sep, d');
      assert d' + [c] == d;
    }
  }

  /** A string without the separator splits into itself alone. */
  lemma {:induction false} SplitWithout(s: string, sep: char)
    requires sep !in s
    ensures Split(s, sep) == [s]
  {
    if s != [] {
      var t, c := s[..|s| - 1], s[|s| - 1];
      assert s == t + [c];
      assert sep !in t && c != sep;
      SplitWithout(t, sep);
      assert Split(s, sep) == [t + [c]];
    }
  }

  predicate HasPrefix(s: string, prefix: string) {
    |prefix| <= |s| && s[..|prefix|] == prefix
  }

  /** The number of bytes of the UTF-8 encoding of `c`. */
  function RuneLen(c: char): (n: nat)
    ensures 1 <= n <= 4
    ensures (c as int < 0x80) <==> n == 1
  {
    var u := c as int;
    if u < 0x80 then 1 else if u < 0x800 then 2 else if u < 0x10000 then 3 else 4
  }

  /** `len([]byte(s))`: the length of the UTF-8 encoding of `s`. */
  function Utf8Size(s: string): (n: nat)
    ensures |s| <= n <= 4 * |s|
  {
    if s == [] then 0 else Utf8Size(s[..|s| - 1]) + RuneLen(s[|s| - 1])
  }

  lemma {:induction false} Utf8SizeConcat(a: string, b: string)
    ensures Utf8Size(a + b) == Utf8Size(a) + Utf8Size(b)
  {
    if b != [] {
      assert (a + b)[..|a + b| - 1] == a + b[..|b| - 1];
      Utf8SizeConcat(a, b[..|b| - 1]);
    } else {
      assert a + b == a;
    }
  }

  /** A string of ASCII characters takes one byte per character. */
  lemma {:induction false} Utf8SizeAscii(s: string)
    requires forall i :: 0 <= i < |s| ==> s[i] as int < 0x80
    ensures Utf8Size(s) == |s|
  {
    if s != [] {
      Utf8SizeAscii(s[..|s| - 1]);
    }
  }
}
