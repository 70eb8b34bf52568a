/** The few functions of Go's `strings` package the core relies on.

    A Go `string` is a sequence of bytes: `len`, indexing and slicing count
    bytes.  Throughout the model a `string` stands for such a byte sequence,
    one `char` per byte. */
module GoStrings {

  /** The ASCII white space `strings.TrimSpace` removes: tab, newline,
      vertical tab, form feed, carriage return and space. */
  predicate IsSpace(c: char)
  {
    c == ' ' || c == '\t' || c == '\n' || c == '\U{0B}' || c == '\U{0C}' || c == '\r'
  }

  /** `s` without its leading white space. */
  function TrimLeft(s: string): string
  {
    if |s| > 0 && IsSpace(s[0]) then TrimLeft(s[1..]) else s
  }

  /** `s` without its trailing white space. */
  function TrimRight(s: string): string
  {
    if |s| > 0 && IsSpace(s[|s| - 1]) then TrimRight(s[..|s| - 1]) else s
  }

  /** `strings.TrimSpace`: white space cut from both ends. */
  function TrimSpace(s: string): string
  {
    TrimRight(TrimLeft(s))
  }

  /** TrimLeft leaves a suffix of `s`: what it cut is white space, and what
      it kept does not start with white space. */
  lemma {:induction false} TrimLeftCuts(s: string)
    ensures var r := TrimLeft(s);
            && |r| <= |s| && r == s[|s| - |r|..]
            && (forall i :: 0 <= i < |s| - |r| ==> IsSpace(s[i]))
            && (r != [] ==> !IsSpace(r[0]))
  {
    if |s| > 0 && IsSpace(s[0]) {
      TrimLeftCuts(s[1..]);
    }
  }

  /** TrimRight leaves a prefix of `s`: what it cut is white space, and what
      it kept does not end with white space. */
  lemma {:induction false} TrimRightCuts(s: string)
    ensures var r := TrimRight(s);
            && |r| <= |s| && r == s[..|r|]
            && (forall i :: |r| <= i < |s| ==> IsSpace(s[i]))
            && (r != [] ==> !IsSpace(r[|r| - 1]))
  {
    if |s| > 0 && IsSpace(s[|s| - 1]) {
      TrimRightCuts(s[..|s| - 1]);
    }
  }

  /** TrimSpace keeps a slice of `s` that neither starts nor ends with white
      space, and only white space is cut on either side. */
  lemma TrimSpaceCuts(s: string)
    ensures var r := TrimSpace(s);
            && |r| <= |s|
            && (r != [] ==> !IsSpace(r[0]) && !IsSpace(r[|r| - 1]))
            && var i := |s| - |TrimLeft(s)|;
               && 0 <= i <= |s| - |r| && r == s[i..i + |r|]
               && (forall k :: 0 <= k < i ==> IsSpace(s[k]))
               && (forall k :: i + |r| <= k < |s| ==> IsSpace(s[k]))
  {
    var left := TrimLeft(s);
    var r := TrimRight(left);
    var i := |s| - |left|;
    TrimLeftCuts(s);
    TrimRightCuts(left);
    assert r == s[i..i + |r|] by {
      assert left == s[i..] && r == left[..|r|];
    }
    forall k | i + |r| <= k < |s| ensures IsSpace(s[k]) {
      assert s[k] == left[k - i];
    }
  }

  /** TrimSpace holds only bytes of `s`. */
  lemma TrimSpaceKeepsBytes(s: string)
    ensures forall c :: c in TrimSpace(s) ==> c in s
  {
    TrimSpaceCuts(s);
    var r := TrimSpace(s);
    var i := |s| - |TrimLeft(s)|;
    SliceMembers(s, i, i + |r|);
  }

  lemma SliceMembers(s: string, i: nat, j: nat)
    requires i <= j <= |s|
    ensures forall c :: c in s[i..j] ==> c in s
  {
    forall c | c in s[i..j] ensures c in s {
      var k :| 0 <= k < j - i && s[i..j][k] == c;
      assert s[i + k] == c;
    }
  }

  /** `strings.Index(s, string(c))` for a one-byte separator: the first
      position of `c` in `s`, or -1 when `s` has none. */
  function IndexByte(s: string, c: char): (i: int)
    ensures -1 <= i < |s|
    ensures i == -1 <==> c !in s
    ensures 0 <= i ==> s[i] == c && c !in s[..i]
  {
    if |s| == 0 then -1
    else if s[0] == c then 0
    else
      var j := IndexByte(s[1..], c);
      if j < 0 then -1
      else
        assert s[..j + 1] == [s[0]] + s[1..][..j];
        j + 1
  }

  /** `strings.TrimPrefix(s, prefix)`. */
  function TrimPrefix(s: string, prefix: string): (r: string)
    ensures prefix <= s ==> prefix + r == s
    ensures !(prefix <= s) ==> r == s
  {
    if prefix <= s then s[|prefix|..] else s
  }

  /** Trimming twice is trimming once. */
  lemma TrimSpaceIdempotent(s: string)
    ensures TrimSpace(TrimSpace(s)) == TrimSpace(s)
  {
    var r := TrimSpace(s);
    TrimSpaceCuts(s);
    if r != [] {
      assert TrimLeft(r) == r;
      TrimRightCuts(r);
      assert TrimRight(r) == r;
    }
  }
}
