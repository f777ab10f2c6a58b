/** Go's fixed-width values as the proxy uses them, and an Option for calls that can fail. */
module GoTypes {

  type Byte = x: int | 0 <= x < 0x100
  type Uint16 = x: int | 0 <= x < 0x1_0000
  type Uint32 = x: int | 0 <= x < 0x1_0000_0000

  datatype Option<+T> = None | Some(value: T)

  /** Go's conversion `uint16(n)` of a non-negative int: only the low 16 bits are kept. */
  function ToUint16(n: nat): (r: Uint16)
    ensures n < 0x1_0000 ==> r == n
    ensures (n - r) % 0x1_0000 == 0
  {
    n % 0x1_0000
  }

  /** The bytes Go stores for a string literal made of ASCII characters. */
  function Ascii(s: string): (b: seq<Byte>)
    requires forall i :: 0 <= i < |s| ==> s[i] as int < 0x80
    ensures |b| == |s|
    ensures forall i :: 0 <= i < |s| ==> b[i] == s[i] as int
  {
    seq(|s|, i requires 0 <= i < |s| => s[i] as int)
  }

  /** What a single read into a buffer of capacity n keeps of datagram d. */
  function Truncate(d: seq<Byte>, n: nat): (r: seq<Byte>)
    ensures |r| == if |d| <= n then |d| else n
    ensures r <= d
  {
    if |d| <= n then d else d[..n]
  }
}
