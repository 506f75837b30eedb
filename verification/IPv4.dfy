/**
 Addresses as Go's `net.IP`: a byte slice of any length, `nil` being the empty
 one. Only 4-byte slices and IPv4-mapped 16-byte slices denote an IPv4 address.
 */
module IPv4 {
  import opened Basics

  type byte = n: int | 0 <= n < 256
  type IP = seq<byte>

  const NIL: IP := []
  const MAPPED_PREFIX: IP := [0, 0, 0, 0, 0, 0, 0, 0, 0, 0, 255, 255]
  const IPV6_ZERO: IP := [0, 0, 0, 0, 0, 0, 0, 0, 0, 0, 0, 0, 0, 0, 0, 0]

  /** The 4-byte form of an address, if it has one. */
  function To4(ip: IP): Option<IP> {
    if |ip| == 4 then Some(ip)
    else if |ip| == 16 && ip[..12] == MAPPED_PREFIX then Some(ip[12..])
    else None
  }

  function BigEndian(b0: int, b1: int, b2: int, b3: int): int {
    b0 * 0x100_0000 + b1 * 0x1_0000 + b2 * 0x100 + b3
  }

  /** Big-endian value of an IPv4 address; None is the error of the source. */
  function ToUint(ip: IP): Option<uint32> {
    match To4(ip)
    case None => None
    case Some(b) => Some(BigEndian(b[0], b[1], b[2], b[3]))
  }

  function FromUint(n: uint32): IP {
    [n / 0x100_0000, n / 0x1_0000 % 0x100, n / 0x100 % 0x100, n % 0x100]
  }

  /** `net.IP.Equal`: an IPv4 address and its mapped 16-byte form are the same. */
  predicate Equal(a: IP, b: IP) {
    if |a| == |b| then a == b
    else if |a| == 4 && |b| == 16 then b[..12] == MAPPED_PREFIX && a == b[12..]
    else if |a| == 16 && |b| == 4 then a[..12] == MAPPED_PREFIX && a[12..] == b
    else false
  }

  predicate IsUnspecified(ip: IP) {
    Equal(ip, FromUint(0)) || Equal(ip, IPV6_ZERO)
  }

  /** Network byte order. */
  lemma BytesOf(n: uint32)
    ensures var b := FromUint(n);
      |b| == 4 && n == b[0] as int * 0x100_0000 + b[1] as int * 0x1_0000 + b[2] as int * 0x100 + b[3] as int
  {
    FromToUint(n);
    assert To4(FromUint(n)) == Some(FromUint(n));
  }

  /** An IPv4 address has two spellings: its four bytes, or these behind ten zeros and two ones-bytes. */
  lemma DenotesIff(ip: IP, n: uint32)
    ensures ToUint(ip) == Some(n) <==>
      ip == FromUint(n) || ip == [0, 0, 0, 0, 0, 0, 0, 0, 0, 0, 0xFF, 0xFF] + FromUint(n)
  {
    FromToUint(n);
    match To4(ip) {
      case None =>
        assert (MAPPED_PREFIX + FromUint(n))[..12] == MAPPED_PREFIX;
      case Some(b) =>
        ToFromUint(b);
        if |ip| == 16 { assert ip == ip[..12] + ip[12..]; }
    }
  }

  /** Unspecified are 0.0.0.0 in either spelling, and ::. */
  lemma UnspecifiedIff(ip: IP)
    ensures IsUnspecified(ip) <==> ToUint(ip) == Some(0) || (|ip| == 16 && forall i :: 0 <= i < 16 ==> ip[i] == 0)
  {
    EqualIffSameAddress(0, ip);
    if |ip| == 4 {
      assert Equal(ip, FromUint(0)) == Equal(FromUint(0), ip);
      assert IPV6_ZERO[10] == 0;
    } else if |ip| == 16 {
      assert IPV6_ZERO[..12][10] == 0;
      assert Equal(ip, IPV6_ZERO) <==> ip == IPV6_ZERO;
    }
  }

  lemma FromToUint(n: uint32)
    ensures ToUint(FromUint(n)) == Some(n)
  {
    var b := FromUint(n);
    assert To4(b) == Some(b);
    assert n == n / 0x100_0000 * 0x100_0000 + n % 0x100_0000;
    assert n / 0x1_0000 == n / 0x100_0000 * 0x100 + n / 0x1_0000 % 0x100;
    assert n / 0x100 == n / 0x1_0000 * 0x100 + n / 0x100 % 0x100;
  }

  /** Four bytes are determined by the number they encode. */
  lemma ToFromUint(b: IP)
    requires |b| == 4
    ensures ToUint(b).Some? && FromUint(ToUint(b).value) == b
  {
    assert To4(b) == Some(b);
    var n, b0: int, b1: int, b2: int := ToUint(b).value, b[0], b[1], b[2];
    assert n / 0x100_0000 == b0;
    assert n / 0x1_0000 == b0 * 0x100 + b1;
    assert n / 0x100 == b0 * 0x1_0000 + b1 * 0x100 + b2;
  }

  /** The server's `ip.Equal(requested)` compares exactly the numeric addresses. */
  lemma EqualIffSameAddress(n: uint32, ip: IP)
    ensures Equal(FromUint(n), ip) <==> ToUint(ip) == Some(n)
  {
    FromToUint(n);
    match To4(ip) {
      case None =>
      case Some(b) => ToFromUint(b);
    }
  }
}
