/** The immutable byte view handed out by the cache (byteview.go): a
    wrapper around a byte buffer whose accessor returns a defensive copy,
    so that no caller can change what the cache holds. */
module ByteViews {
  import opened Common

  /** `ByteView` (byteview.go:4-6). */
  datatype ByteView = ByteView(b: array<byte>)

  /** The bytes a view currently holds. */
  function Contents(v: ByteView): seq<byte>
    reads v.b
  {
    v.b[..]
  }

  /** `Len` (byteview.go:9-11): the number of bytes in the view, which is
      also the length of its string form. */
  function Len(v: ByteView): (n: nat)
    reads v.b
    ensures n == |Contents(v)|
    ensures n == |String(v)|
  {
    v.b.Length
  }

  /** Go's `string(bs)`: one character per byte, with the byte's value. */
  function Chars(bs: seq<byte>): (s: string)
    ensures |s| == |bs|
    ensures forall i :: 0 <= i < |bs| ==> s[i] as int == bs[i] as int
  {
    if bs == [] then [] else Chars(bs[..|bs| - 1]) + [bs[|bs| - 1] as int as char]
  }

  /** Go's `[]byte(s)` for a string whose characters are all bytes. */
  function CharBytes(s: string): (bs: seq<byte>)
    requires forall i :: 0 <= i < |s| ==> s[i] as int < 0x100
    ensures |bs| == |s|
    ensures forall i :: 0 <= i < |s| ==> bs[i] as int == s[i] as int
  {
    if s == [] then [] else CharBytes(s[..|s| - 1]) + [s[|s| - 1] as int as byte]
  }

  /** `String` (byteview.go:18-20): the view's bytes as a string. */
  function String(v: ByteView): (s: string)
    reads v.b
    ensures |s| == v.b.Length
    ensures forall i :: 0 <= i < |s| ==> s[i] as int == v.b[i] as int
  {
    Chars(v.b[..])
  }

  /** The string form loses nothing: converting it back gives the bytes. */
  lemma StringRoundTrip(v: ByteView)
    ensures forall i :: 0 <= i < |String(v)| ==> String(v)[i] as int < 0x100
    ensures CharBytes(String(v)) == Contents(v)
  {
    var s := String(v);
    assert forall i :: 0 <= i < |s| ==> s[i] as int == v.b[i] as int;
  }

  /** Two views with the same bytes have the same string form, and the
      other way round. */
  lemma StringInjective(v: ByteView, w: ByteView)
    ensures String(v) == String(w) <==> Contents(v) == Contents(w)
  {
    if String(v) == String(w) {
      StringRoundTrip(v);
      StringRoundTrip(w);
    }
  }

  /** `cloneByte` (byteview.go:23-28): a new buffer of the same length,
      filled by `copy` with the same bytes. */
  method CloneByte(b: array<byte>) returns (c: array<byte>)
    ensures fresh(c)
    ensures c.Length == b.Length && c[..] == b[..]
  {
    c := new byte[b.Length];
    forall i | 0 <= i < b.Length {
      c[i] := b[i];
    }
  }

  /** `ByteSlice` (byteview.go:14-16): a copy of the view's bytes in a
      buffer nobody else holds. */
  method ByteSlice(v: ByteView) returns (c: array<byte>)
    ensures fresh(c)
    ensures c[..] == Contents(v)
  {
    c := CloneByte(v.b);
  }

  /** Writing into what `ByteSlice` returned leaves the view as it was. */
  method ByteSliceIsDefensive(v: ByteView, x: byte) returns (c: array<byte>)
    requires v.b.Length > 0
    ensures c[..] == [x] + old(Contents(v))[1..]
    ensures Contents(v) == old(Contents(v))
  {
    c := ByteSlice(v);
    c[0] := x;
  }
}
