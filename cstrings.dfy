/**
 * C strings and the bounded copy that q_remove_head performs into a caller
 * buffer: `strncpy(sp, value, bufsize - 1)` followed by `sp[bufsize - 1] = '\0'`.
 */
module CStrings {

  /** A C string: its characters up to, and not including, the terminating NUL. */
  type CString = s: seq<char> | '\0' !in s witness []

  function Min(a: int, b: int): (m: int) { if a <= b then a else b }

  /**
   * The C string a NUL-terminated buffer holds: the characters before the
   * first NUL (all of them when the buffer has none).
   */
  function Read(buf: seq<char>): (r: CString)
    ensures |r| <= |buf| && r == buf[..|r|]
    ensures |r| < |buf| ==> buf[|r|] == '\0'
  {
    if buf == [] || buf[0] == '\0' then [] else [buf[0]] + Read(buf[1..])
  }

  /**
   * The first `bufsize` bytes of the caller buffer after the copy: strncpy
   * writes the first `bufsize - 1` characters of `v` and pads with NUL up to
   * `bufsize - 1` bytes, and the last byte is then forced to NUL.
   */
  function TruncatedCopy(v: CString, bufsize: nat): (r: seq<char>)
    requires bufsize >= 1
    ensures |r| == bufsize && r[bufsize - 1] == '\0'
    ensures forall i :: 0 <= i < Min(|v|, bufsize - 1) ==> r[i] == v[i]
    ensures forall i :: Min(|v|, bufsize - 1) <= i < bufsize ==> r[i] == '\0'
  {
    var k := Min(|v|, bufsize - 1);
    v[..k] + seq(bufsize - k, _ => '\0')
  }

  /** A NUL-free prefix followed by a NUL reads back as exactly that prefix. */
  lemma {:induction false} ReadTerminated(p: CString, rest: seq<char>)
    ensures Read(p + ['\0'] + rest) == p
  {
    if p != [] {
      assert (p + ['\0'] + rest)[1..] == p[1..] + ['\0'] + rest;
      ReadTerminated(p[1..], rest);
    }
  }

  /**
   * Reading the buffer back as a C string gives the removed value cut to at
   * most `bufsize - 1` characters; when the value fits it comes back whole.
   */
  lemma ReadTruncatedCopy(v: CString, bufsize: nat)
    requires bufsize >= 1
    ensures Read(TruncatedCopy(v, bufsize)) == v[..Min(|v|, bufsize - 1)]
    ensures |v| < bufsize ==> Read(TruncatedCopy(v, bufsize)) == v
  {
    var k := Min(|v|, bufsize - 1);
    var pad := seq(bufsize - k, _ => '\0');
    assert TruncatedCopy(v, bufsize) == v[..k] + ['\0'] + pad[1..];
    ReadTerminated(v[..k], pad[1..]);
  }
}
