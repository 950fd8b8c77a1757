/** White-space trimming as `bytes.TrimSpace` and `strings.TrimSpace` perform it.
    Raw bytes and Go strings are both modelled as `string`, one character per byte. */
module Text {

  /** The ASCII white space Go's trimming functions recognise:
      tab, line feed, vertical tab, form feed, carriage return and space. */
  predicate IsSpace(c: char) {
    c == '\t' || c == '\n' || c == '\U{0B}' || c == '\U{0C}' || c == '\r' || c == ' '
  }

  predicate AllSpace(s: string) {
    forall i :: 0 <= i < |s| ==> IsSpace(s[i])
  }

  /** True when `s` neither starts nor ends with white space. */
  predicate Trimmed(s: string) {
    s == [] || (!IsSpace(s[0]) && !IsSpace(s[|s| - 1]))
  }

  /** Drops the leading white space. */
  function TrimLeft(s: string): string {
    if s != [] && IsSpace(s[0]) then TrimLeft(s[1..]) else s
  }

  /** Drops the trailing white space. */
  function TrimRight(s: string): string {
    if s != [] && IsSpace(s[|s| - 1]) then TrimRight(s[..|s| - 1]) else s
  }

  /** What `TrimLeft` keeps is a suffix of `s` that is empty or starts with a
      non-space, and everything it drops is white space. */
  lemma {:induction false} TrimLeftShape(s: string)
    ensures var r := TrimLeft(s);
      && |r| <= |s| && r == s[|s| - |r|..]
      && AllSpace(s[..|s| - |r|])
      && (r != [] ==> !IsSpace(r[0]))
  {
    if s != [] && IsSpace(s[0]) {
      TrimLeftShape(s[1..]);
      var r := TrimLeft(s);
      assert s[..|s| - |r|] == [s[0]] + s[1..][..|s| - 1 - |r|];
    }
  }

  /** What `TrimRight` keeps is a prefix of `s` that is empty or ends with a
      non-space, and everything it drops is white space. */
  lemma {:induction false} TrimRightShape(s: string)
    ensures var r := TrimRight(s);
      && |r| <= |s| && r == s[..|r|]
      && AllSpace(s[|r|..])
      && (r != [] ==> !IsSpace(r[|r| - 1]))
  {
    if s != [] && IsSpace(s[|s| - 1]) {
      var shorter := s[..|s| - 1];
      TrimRightShape(shorter);
      var r := TrimRight(s);
      assert s[|r|..] == shorter[|r|..] + [s[|s| - 1]];
    }
  }

  /** `bytes.TrimSpace` / `strings.TrimSpace`: the result is empty exactly when
      `s` is all white space, and otherwise has no white space at either end. */
  function TrimSpace(s: string): (r: string)
    ensures r == [] <==> AllSpace(s)
    ensures Trimmed(r)
    ensures |r| <= |s|
  {
    TrimLeftShape(s);
    var l := TrimLeft(s);
    TrimRightShape(l);
    var r := TrimRight(l);
    assert r == [] ==> AllSpace(s) by {
      if r == [] {
        assert s == s[..|s| - |l|] + l;
        assert AllSpace(l);
      }
    }
    r
  }

  lemma {:induction false} TrimLeftSkips(pad: string, s: string)
    requires AllSpace(pad)
    requires s == [] || !IsSpace(s[0])
    ensures TrimLeft(pad + s) == s
    decreases |pad|
  {
    if pad != [] {
      assert (pad + s)[1..] == pad[1..] + s;
      TrimLeftSkips(pad[1..], s);
    } else {
      assert pad + s == s;
    }
  }

  lemma {:induction false} TrimRightSkips(s: string, pad: string)
    requires AllSpace(pad)
    requires s == [] || !IsSpace(s[|s| - 1])
    ensures TrimRight(s + pad) == s
    decreases |pad|
  {
    if pad != [] {
      var shorter := pad[..|pad| - 1];
      assert (s + pad)[..|s + pad| - 1] == s + shorter;
      TrimRightSkips(s, shorter);
    } else {
      assert s + pad == s;
    }
  }

  /** Trimming removes exactly the surrounding white space: any string padded
      with white space on either side trims back to itself when it has none at
      its ends (so `"  exit \n"` trims to `"exit"`). */
  lemma TrimSurrounded(before: string, s: string, after: string)
    requires AllSpace(before) && AllSpace(after)
    requires Trimmed(s)
    ensures TrimSpace(before + s + after) == s
  {
    if s == [] {
      assert before + s + after == before + after;
      assert AllSpace(before + after) by {
        forall i | 0 <= i < |before + after|
          ensures IsSpace((before + after)[i])
        {
          if i >= |before| {
            assert (before + after)[i] == after[i - |before|];
          }
        }
      }
    } else {
      assert before + s + after == before + (s + after);
      TrimLeftSkips(before, s + after);
      TrimRightSkips(s, after);
    }
  }

  /** Trimming twice changes nothing. */
  lemma TrimIdempotent(s: string)
    ensures TrimSpace(TrimSpace(s)) == TrimSpace(s)
  {
    var t := TrimSpace(s);
    assert [] + t + [] == t;
    TrimSurrounded([], t, []);
  }
}
