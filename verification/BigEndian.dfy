// Fixed-width big-endian integers, as the frame headers of gRPC and WebSocket
// carry them.
module BigEndian {
  import opened Common

  // 256 to the power of width.
  function Limit(width: nat): (l: nat)
    ensures l >= 1
  {
    if width == 0 then 1 else 256 * Limit(width - 1)
  }

  // The last `width` base-256 digits of n, most significant first.
  function Put(n: nat, width: nat): (s: bytes)
    ensures |s| == width
  {
    if width == 0 then [] else Put(n / 256, width - 1) + [n % 256]
  }

  function Get(s: bytes): nat {
    if s == [] then 0 else 256 * Get(s[..|s| - 1]) + s[|s| - 1]
  }

  lemma GetMore(s: bytes, b: byte)
    ensures Get(s + [b]) == 256 * Get(s) + b
  {
    assert (s + [b])[..|s|] == s;
  }

  lemma {:induction false} GetPut(n: nat, width: nat)
    requires n < Limit(width)
    ensures Get(Put(n, width)) == n
  {
    if width > 0 {
      assert Limit(width) == 256 * Limit(width - 1) && n / 256 < Limit(width - 1);
      assert Put(n, width) == Put(n / 256, width - 1) + [n % 256];
      hide Limit, Put;
      GetPut(n / 256, width - 1);
      GetMore(Put(n / 256, width - 1), n % 256);
    }
  }

  lemma {:induction false} PutGet(s: bytes)
    ensures Get(s) < Limit(|s|)
    ensures Put(Get(s), |s|) == s
  {
    if s == [] {
    } else {
      var front := s[..|s| - 1];
      PutGet(front);
      assert Get(s) / 256 == Get(front) && Get(s) % 256 == s[|s| - 1];
      assert s == front + [s[|s| - 1]];
    }
  }

  // Most significant byte first, for the widths in use. Put is pinned with it,
  // being its inverse.
  lemma GetTwo(a: byte, b: byte)
    ensures Get([a, b]) == 0x100 * a + b
  {
    GetMore([], a);
    GetMore([a], b);
    assert [] + [a] == [a] && [a] + [b] == [a, b];
  }

  lemma GetFour(a: byte, b: byte, c: byte, d: byte)
    ensures Get([a, b, c, d]) == 0x100_0000 * a + 0x1_0000 * b + 0x100 * c + d
  {
    GetTwo(a, b);
    GetMore([a, b], c);
    GetMore([a, b, c], d);
    assert [a, b] + [c] == [a, b, c] && [a, b, c] + [d] == [a, b, c, d];
  }

  lemma GetEight(s: bytes)
    requires |s| == 8
    ensures Get(s) == 0x1_0000_0000 * Get(s[..4]) + Get(s[4..])
  {
    assert s[..5] == s[..4] + [s[4]] && s[..6] == s[..5] + [s[5]] && s[..7] == s[..6] + [s[6]];
    assert s == s[..7] + [s[7]] && s[4..] == [s[4], s[5], s[6], s[7]];
    GetFour(s[4], s[5], s[6], s[7]);
    hide Get;
    GetMore(s[..4], s[4]);
    GetMore(s[..5], s[5]);
    GetMore(s[..6], s[6]);
    GetMore(s[..7], s[7]);
  }

  lemma Limits()
    ensures Limit(2) == 0x1_0000
    ensures Limit(4) == 0x1_0000_0000
    ensures Limit(8) == 0x1_0000_0000_0000_0000
  {
    assert Limit(3) == 0x100_0000;
    assert Limit(4) == 0x1_0000_0000;
    assert Limit(5) == 0x100_0000_0000;
    assert Limit(6) == 0x1_0000_0000_0000;
    assert Limit(7) == 0x100_0000_0000_0000;
  }
}
