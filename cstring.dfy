/**
 NUL-terminated character strings as the C code handles them: a Lua string
 handed over through lua_tostring is read by strlen and strcpy only up to
 its first NUL.
 */
module CString {

  const NUL: char := '\0'

  predicate NulFree(s: string) {
    forall i :: 0 <= i < |s| ==> s[i] != NUL
  }

  /** strlen: the index of the first NUL, or the whole length when there is none */
  function Length(s: string): (n: nat)
    ensures n <= |s|
    ensures NulFree(s[..n])
    ensures n < |s| ==> s[n] == NUL
  {
    if s == [] || s[0] == NUL then 0 else 1 + Length(s[1..])
  }

  /** The string a C function sees when given a buffer holding s */
  function Contents(s: string): (r: string)
    ensures NulFree(r)
    ensures r <= s
    ensures |r| == |s| || s[|r|] == NUL
  {
    s[..Length(s)]
  }

  /** A NUL-free string followed by a terminator reads back as itself, whatever follows */
  lemma ContentsOfTerminated(s: string, rest: string)
    requires NulFree(s)
    ensures Contents(s + [NUL] + rest) == s
  {
    var t := s + [NUL] + rest;
    assert t[|s|] == NUL;
    assert t[..|s|] == s;
  }

  /** A buffer holding s and then a terminator reads back as s */
  lemma ContentsOfBuffer(buf: string, s: string)
    requires NulFree(s)
    requires |s| < |buf| && buf[..|s|] == s && buf[|s|] == NUL
    ensures Contents(buf) == s
  {
    assert buf == s + [NUL] + buf[|s| + 1..];
    ContentsOfTerminated(s, buf[|s| + 1..]);
  }

  /** A buffer holding s, then t, then a terminator reads back as s + t */
  lemma ContentsOfJoined(buf: string, s: string, t: string)
    requires NulFree(s) && NulFree(t)
    requires |s| + |t| < |buf|
    requires buf[..|s|] == s && buf[|s|..|s| + |t|] == t && buf[|s| + |t|] == NUL
    ensures Contents(buf) == s + t
  {
    assert buf[..|s| + |t|] == s + t by {
      assert buf[..|s| + |t|] == buf[..|s|] + buf[|s|..|s| + |t|];
    }
    assert NulFree(s + t) by {
      forall i | 0 <= i < |s + t| ensures (s + t)[i] != NUL {
        if i >= |s| { assert (s + t)[i] == t[i - |s|]; }
      }
    }
    ContentsOfBuffer(buf, s + t);
  }

  /** A string without NUL is passed whole */
  lemma ContentsOfNulFree(s: string)
    requires NulFree(s)
    ensures Contents(s) == s
  {
  }
}
