/** The two string operations the program applies to service replies:
    Python's `str.strip()` and `str.upper()`, over the ASCII range. */
module Text {

  /** Python's `str.isspace` on ASCII: space, tab, line feed, vertical tab,
      form feed, carriage return and the separators 0x1C..0x1F. */
  predicate IsSpace(c: char) {
    var n := c as int;
    n == 32 || 9 <= n <= 13 || 28 <= n <= 31
  }

  predicate AllSpace(s: string) {
    forall k :: 0 <= k < |s| ==> IsSpace(s[k])
  }

  /** `s` has no surrounding whitespace. */
  predicate Tight(s: string) {
    s == [] || (!IsSpace(s[0]) && !IsSpace(s[|s| - 1]))
  }

  /** Drops leading whitespace. */
  function TrimStart(s: string): (r: string)
    ensures |r| <= |s|
  {
    if s != [] && IsSpace(s[0]) then TrimStart(s[1..]) else s
  }

  /** The result of `TrimStart` is a suffix of `s`, what was dropped is all
      whitespace, and the result does not start with whitespace. */
  lemma {:induction false} TrimStartSpec(s: string)
    ensures var r := TrimStart(s);
      && r == s[|s| - |r|..]
      && AllSpace(s[..|s| - |r|])
      && (r != [] ==> !IsSpace(r[0]))
  {
    if s != [] && IsSpace(s[0]) {
      TrimStartSpec(s[1..]);
      var r := TrimStart(s);
      assert s[1..][|s| - 1 - |r|..] == s[|s| - |r|..];
      forall k | 0 <= k < |s| - |r| ensures IsSpace(s[k]) {
        if k > 0 {
          assert s[k] == s[1..][..|s| - 1 - |r|][k - 1];
        }
      }
    }
  }

  /** Drops trailing whitespace. */
  function TrimEnd(s: string): (r: string)
    ensures |r| <= |s|
  {
    if s != [] && IsSpace(s[|s| - 1]) then TrimEnd(s[..|s| - 1]) else s
  }

  /** The result of `TrimEnd` is a prefix of `s`, what was dropped is all
      whitespace, and the result does not end with whitespace. */
  lemma {:induction false} TrimEndSpec(s: string)
    ensures var r := TrimEnd(s);
      && r == s[..|r|]
      && AllSpace(s[|r|..])
      && (r != [] ==> !IsSpace(r[|r| - 1]))
  {
    if s != [] && IsSpace(s[|s| - 1]) {
      var s' := s[..|s| - 1];
      TrimEndSpec(s');
      var r := TrimEnd(s);
      assert s'[..|r|] == s[..|r|];
      forall k | |r| <= k < |s| ensures IsSpace(s[k]) {
        if k < |s| - 1 {
          assert s[k] == s'[|r|..][k - |r|];
        }
      }
    }
  }

  /** Python's `s.strip()`: the result has no surrounding whitespace. */
  function Strip(s: string): (r: string)
    ensures Tight(r)
  {
    TrimStartSpec(s);
    TrimEndSpec(TrimStart(s));
    TrimEnd(TrimStart(s))
  }

  /** `s` is the stripped text framed by whitespace on both sides: the text starts
      where the leading whitespace ends. */
  lemma StripFrame(s: string)
    ensures var i := |s| - |TrimStart(s)|;
      && i + |Strip(s)| <= |s|
      && s[i..i + |Strip(s)|] == Strip(s)
      && AllSpace(s[..i]) && AllSpace(s[i + |Strip(s)|..])
  {
    var t := TrimStart(s);
    var r := TrimEnd(t);
    TrimStartSpec(s);
    TrimEndSpec(t);
    assert Strip(s) == r;
    Framed(s, |s| - |t|, t, r);
  }

  /** A prefix `r` of the suffix `t` of `s` that starts at `i`, with only whitespace
      after `r` in `t`, sits in `s` at `i` with only whitespace after it. */
  lemma Framed(s: string, i: nat, t: string, r: string)
    requires i <= |s| && t == s[i..]
    requires |r| <= |t| && r == t[..|r|] && AllSpace(t[|r|..])
    ensures i + |r| <= |s| && s[i..i + |r|] == r && AllSpace(s[i + |r|..])
  {
    var after := s[i + |r|..];
    forall k | 0 <= k < |after| ensures IsSpace(after[k]) {
      assert after[k] == t[|r|..][k];
    }
  }

  lemma {:induction false} TrimStartOfSpaces(a: string, w: string)
    requires AllSpace(a)
    requires w == [] || !IsSpace(w[0])
    ensures TrimStart(a + w) == w
  {
    if a != [] {
      assert (a + w)[1..] == a[1..] + w;
      TrimStartOfSpaces(a[1..], w);
    } else {
      assert a + w == w;
    }
  }

  lemma {:induction false} TrimEndOfSpaces(w: string, b: string)
    requires AllSpace(b)
    requires w == [] || !IsSpace(w[|w| - 1])
    ensures TrimEnd(w + b) == w
  {
    if b != [] {
      assert (w + b)[..|w + b| - 1] == w + b[..|b| - 1];
      TrimEndOfSpaces(w, b[..|b| - 1]);
    } else {
      assert w + b == w;
    }
  }

  /** Stripping is determined by the framing: whatever whitespace surrounds a
      text without surrounding whitespace of its own, stripping gives back that text. */
  lemma StripFramed(a: string, w: string, b: string)
    requires AllSpace(a) && AllSpace(b) && Tight(w) && w != []
    ensures Strip(a + w + b) == w
  {
    assert a + w + b == a + (w + b);
    TrimStartOfSpaces(a, w + b);
    TrimEndOfSpaces(w, b);
  }

  /** Python's `str.upper` on ASCII letters; every other character is kept. */
  function UpperChar(c: char): char {
    if 'a' <= c <= 'z' then (c as int - 32) as char else c
  }

  function Upper(s: string): (r: string)
    ensures |r| == |s|
    ensures forall k :: 0 <= k < |s| ==> r[k] == UpperChar(s[k])
  {
    seq(|s|, k requires 0 <= k < |s| => UpperChar(s[k]))
  }
}
