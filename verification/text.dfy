/**
 String helpers with Python's meaning: `str.isspace`, `str.strip`,
 `str.replace(' ', '-')`, and the brace-free / brace-escaped forms that the
 placeholder substitution treats specially.
 */
module Text {

  /** The characters Python's `str.isspace` accepts; `str.strip()` removes exactly these. */
  predicate IsSpace(c: char) {
    || c == ' '
    || ('\t' <= c <= '\r')
    || ('\U{1c}' <= c <= '\U{1f}')
    || c == '\U{85}'
    || c == '\U{a0}'
    || c == '\U{1680}'
    || ('\U{2000}' <= c <= '\U{200a}')
    || c == '\U{2028}'
    || c == '\U{2029}'
    || c == '\U{202f}'
    || c == '\U{205f}'
    || c == '\U{3000}'
  }

  predicate AllSpace(s: string) {
    forall k :: 0 <= k < |s| ==> IsSpace(s[k])
  }

  /** How many whitespace characters `s` starts with. */
  function LeadingSpaces(s: string): (n: nat)
    ensures n <= |s|
    ensures forall k :: 0 <= k < n ==> IsSpace(s[k])
    ensures n == |s| || !IsSpace(s[n])
  {
    if s != [] && IsSpace(s[0]) then 1 + LeadingSpaces(s[1..]) else 0
  }

  /** How many whitespace characters `s` ends with. */
  function TrailingSpaces(s: string): (n: nat)
    ensures n <= |s|
    ensures forall k :: |s| - n <= k < |s| ==> IsSpace(s[k])
    ensures n == |s| || !IsSpace(s[|s| - n - 1])
  {
    if s != [] && IsSpace(s[|s| - 1]) then 1 + TrailingSpaces(s[..|s| - 1]) else 0
  }

  /** Python `s.lstrip()`. */
  function LStrip(s: string): string {
    s[LeadingSpaces(s)..]
  }

  /** Python `s.rstrip()`. */
  function RStrip(s: string): string {
    s[..|s| - TrailingSpaces(s)]
  }

  /**
   Python `s.strip()`: the infix left after removing outer whitespace. Only
   whitespace is removed, and the result begins and ends with a visible
   character (or is empty).
   */
  function Strip(s: string): (r: string)
    ensures exists i, j :: 0 <= i <= j <= |s| && r == s[i..j] && AllSpace(s[..i]) && AllSpace(s[j..])
    ensures r == [] || (!IsSpace(r[0]) && !IsSpace(r[|r| - 1]))
  {
    var l := LStrip(s);
    var i := LeadingSpaces(s);
    var r := RStrip(l);
    var j := i + |r|;
    assert r == s[i..j];
    assert forall k :: j <= k < |s| ==> s[k] == l[k - i];
    assert AllSpace(s[..i]) && AllSpace(s[j..]);
    r
  }

  lemma {:induction false} LStripAppend(x: string, t: string)
    requires LStrip(x) != []
    ensures LStrip(x + t) == LStrip(x) + t
  {
    if x != [] && IsSpace(x[0]) {
      assert (x + t)[1..] == x[1..] + t;
      LStripAppend(x[1..], t);
    }
  }

  lemma {:induction false} LStripAllSpace(x: string, t: string)
    requires LStrip(x) == []
    ensures LStrip(x + t) == LStrip(t)
  {
    if x != [] {
      assert (x + t)[1..] == x[1..] + t;
      LStripAllSpace(x[1..], t);
    } else {
      assert x + t == t;
    }
  }

  /** Whitespace added at the end never survives `strip`. */
  lemma StripTrailingSpace(x: string, c: char)
    requires IsSpace(c)
    ensures Strip(x + [c]) == Strip(x)
  {
    if LStrip(x) == [] {
      LStripAllSpace(x, [c]);
      assert LStrip([c]) == LStrip([c][1..]);
    } else {
      LStripAppend(x, [c]);
      var l := LStrip(x);
      assert (l + [c])[..|l + [c]| - 1] == l;
    }
  }

  /** Text already without outer whitespace is left alone by `strip`. */
  lemma StripIdentity(x: string)
    requires x == [] || (!IsSpace(x[0]) && !IsSpace(x[|x| - 1]))
    ensures Strip(x) == x
  {
  }

  /** One space of padding on each side of a trimmed text is all `strip` removes. */
  lemma StripPadded(x: string)
    requires x != [] && !IsSpace(x[0]) && !IsSpace(x[|x| - 1])
    ensures Strip(" " + x + " ") == x
  {
    StripTrailingSpace(" " + x, ' ');
    LStripAllSpace(" ", x);
    assert LStrip(" ") == LStrip(" "[1..]);
  }

  /** Python `s.replace(' ', '-')`: every space becomes a hyphen, one for one. */
  function ReplaceSpaces(s: string): (r: string)
    ensures |r| == |s|
    ensures forall i :: 0 <= i < |s| ==> r[i] == (if s[i] == ' ' then '-' else s[i])
  {
    if s == [] then [] else [if s[0] == ' ' then '-' else s[0]] + ReplaceSpaces(s[1..])
  }

  lemma ReplaceSpacesAppend(a: string, b: string)
    ensures ReplaceSpaces(a + b) == ReplaceSpaces(a) + ReplaceSpaces(b)
  {
    var l := ReplaceSpaces(a + b);
    var r := ReplaceSpaces(a) + ReplaceSpaces(b);
    assert |l| == |r|;
    forall i | 0 <= i < |l|
      ensures l[i] == r[i]
    {
      if i < |a| {
        assert (a + b)[i] == a[i];
      } else {
        assert (a + b)[i] == b[i - |a|];
      }
    }
  }

  predicate IsBrace(c: char) {
    c == '{' || c == '}'
  }

  /** Text that the placeholder substitution copies verbatim. */
  predicate NoBraces(s: string) {
    forall i :: 0 <= i < |s| ==> !IsBrace(s[i])
  }

  lemma NoBracesAppend(a: string, b: string)
    ensures NoBraces(a + b) <==> NoBraces(a) && NoBraces(b)
  {
    if NoBraces(a) && NoBraces(b) {
      forall i | 0 <= i < |a + b|
        ensures !IsBrace((a + b)[i])
      {
        if i < |a| {
          assert (a + b)[i] == a[i];
        } else {
          assert (a + b)[i] == b[i - |a|];
        }
      }
    }
    if NoBraces(a + b) {
      forall i | 0 <= i < |a|
        ensures !IsBrace(a[i])
      {
        assert (a + b)[i] == a[i];
      }
      forall i | 0 <= i < |b|
        ensures !IsBrace(b[i])
      {
        assert (a + b)[|a| + i] == b[i];
      }
    }
  }

  lemma NoBracesInfix(s: string, i: nat, j: nat)
    requires i <= j <= |s|
    requires NoBraces(s)
    ensures NoBraces(s[i..j])
  {
    forall k | 0 <= k < j - i
      ensures !IsBrace(s[i..j][k])
    {
      assert s[i..j][k] == s[i + k];
    }
  }

  /** The brace-escaped form of a text: each `{` and `}` doubled. */
  function Escape(s: string): (r: string)
    ensures |r| >= |s|
  {
    if s == [] then []
    else (if IsBrace(s[0]) then [s[0], s[0]] else [s[0]]) + Escape(s[1..])
  }

  lemma {:induction false} EscapeAppend(a: string, b: string)
    ensures Escape(a + b) == Escape(a) + Escape(b)
  {
    if a == [] {
      assert a + b == b;
    } else {
      assert (a + b)[0] == a[0];
      assert (a + b)[1..] == a[1..] + b;
      EscapeAppend(a[1..], b);
    }
  }

  lemma {:induction false} EscapeNoBraces(s: string)
    requires NoBraces(s)
    ensures Escape(s) == s
  {
    if s != [] {
      NoBracesInfix(s, 1, |s|);
      EscapeNoBraces(s[1..]);
      assert [s[0]] + s[1..] == s;
    }
  }
}
