/** Python's notion of white space. */
module Text {

  /** The characters `str.strip` removes. */
  predicate IsSpace(c: char) {
    || '\t' <= c <= '\r' || '\U{1c}' <= c <= ' ' || c == '\U{85}' || c == '\U{a0}' || c == '\U{1680}'
    || '\U{2000}' <= c <= '\U{200a}' || c == '\U{2028}' || c == '\U{2029}' || c == '\U{202f}'
    || c == '\U{205f}' || c == '\U{3000}'
  }

  predicate IsBlank(s: string) {
    forall i :: 0 <= i < |s| ==> IsSpace(s[i])
  }

  function StripLeft(s: string): string {
    if s != "" && IsSpace(s[0]) then StripLeft(s[1..]) else s
  }

  function StripRight(s: string): string {
    if s != "" && IsSpace(s[|s| - 1]) then StripRight(s[..|s| - 1]) else s
  }

  /** `str.strip` */
  function Strip(s: string): string {
    StripRight(StripLeft(s))
  }

  lemma SpaceIff(c: char)
    ensures IsSpace(c) <==>
      c as int in {9, 10, 11, 12, 13, 28, 29, 30, 31, 32, 0x85, 0xa0, 0x1680, 0x2000, 0x2001, 0x2002, 0x2003, 0x2004,
                   0x2005, 0x2006, 0x2007, 0x2008, 0x2009, 0x200a, 0x2028, 0x2029, 0x202f, 0x205f, 0x3000}
  {
  }

  /** The text begins and ends with a character that is no space, or is empty. */
  predicate IsTrimmed(s: string) {
    s == "" || (!IsSpace(s[0]) && !IsSpace(s[|s| - 1]))
  }

  lemma {:induction false} StripLeftIs(a: string, t: string)
    requires IsBlank(a) && (t == "" || !IsSpace(t[0]))
    ensures StripLeft(a + t) == t
  {
    if a == "" {
      assert a + t == t;
    } else {
      assert (a + t)[1..] == a[1..] + t;
      StripLeftIs(a[1..], t);
    }
  }

  lemma {:induction false} StripRightIs(t: string, b: string)
    requires IsBlank(b) && (t == "" || !IsSpace(t[|t| - 1]))
    ensures StripRight(t + b) == t
  {
    if b == "" {
      assert t + b == t;
    } else {
      var n := |b| - 1;
      assert (t + b)[..|t + b| - 1] == t + b[..n] && (t + b)[|t + b| - 1] == b[n];
      StripRightIs(t, b[..n]);
    }
  }

  /** Stripping takes exactly the white space off that surrounds a trimmed text. */
  lemma StripIs(a: string, t: string, b: string)
    requires IsBlank(a) && IsBlank(b) && IsTrimmed(t)
    ensures Strip(a + t + b) == t
  {
    if t == "" {
      assert a + t + b == a + b + "" && IsBlank(a + b);
      StripLeftIs(a + b, "");
    } else {
      assert a + t + b == a + (t + b);
      StripLeftIs(a, t + b);
      StripRightIs(t, b);
    }
  }
}
