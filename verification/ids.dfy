/** UUIDs and their canonical text form, `str(uuid)`: 32 lower-case hex
    digits grouped 8-4-4-4-12. The 128 bits are kept as 32 nibbles. */
module Ids {

  type Nibbles = s: seq<int> | |s| == 32 && forall i | 0 <= i < |s| :: 0 <= s[i] < 16
    witness seq(32, _ => 0)

  datatype Uuid = Uuid(nibbles: Nibbles)

  /** A nibble as a lower-case hexadecimal digit. */
  function HexChar(d: int): char
    requires 0 <= d < 16
  {
    if d < 10 then ('0' as int + d) as char else ('a' as int + d - 10) as char
  }

  /** Nibbles as hexadecimal digits, one for one. */
  function HexString(ns: seq<int>): (s: string)
    requires forall i | 0 <= i < |ns| :: 0 <= ns[i] < 16
    ensures |s| == |ns|
    ensures forall i | 0 <= i < |ns| :: s[i] == HexChar(ns[i])
  {
    if ns == [] then "" else [HexChar(ns[0])] + HexString(ns[1..])
  }

  /** The five groups of digits, joined by dashes. */
  function UuidString(u: Uuid): (s: string)
    ensures |s| == 36
  {
    var n := u.nibbles;
    HexString(n[0..8]) + ("-" + (HexString(n[8..12]) + ("-" + (HexString(n[12..16])
    + ("-" + (HexString(n[16..20]) + ("-" + HexString(n[20..32]))))))))
  }

  /** Equal texts of equal-length prefixes agree on prefix and rest. */
  lemma PeelEqual(x1: string, r1: string, x2: string, r2: string)
    requires |x1| == |x2| && x1 + r1 == x2 + r2
    ensures x1 == x2 && r1 == r2
  {
    assert x1 == (x1 + r1)[..|x1|] && x2 == (x2 + r2)[..|x2|];
    assert r1 == (x1 + r1)[|x1|..] && r2 == (x2 + r2)[|x2|..];
  }

  /** The digits give the nibbles back. */
  lemma HexStringInjective(x: seq<int>, y: seq<int>)
    requires forall i | 0 <= i < |x| :: 0 <= x[i] < 16
    requires forall i | 0 <= i < |y| :: 0 <= y[i] < 16
    requires |x| == |y| && HexString(x) == HexString(y)
    ensures x == y
  {
    forall i | 0 <= i < |x|
      ensures x[i] == y[i]
    {
      assert HexChar(x[i]) == HexChar(y[i]);
    }
  }

  /** Distinct UUIDs have distinct text forms. */
  lemma UuidStringInjective(a: Uuid, b: Uuid)
    requires UuidString(a) == UuidString(b)
    ensures a == b
  {
    var x, y := a.nibbles, b.nibbles;
    var rx := "-" + (HexString(x[8..12]) + ("-" + (HexString(x[12..16])
              + ("-" + (HexString(x[16..20]) + ("-" + HexString(x[20..32])))))));
    var ry := "-" + (HexString(y[8..12]) + ("-" + (HexString(y[12..16])
              + ("-" + (HexString(y[16..20]) + ("-" + HexString(y[20..32])))))));
    PeelEqual(HexString(x[0..8]), rx, HexString(y[0..8]), ry);
    HexStringInjective(x[0..8], y[0..8]);
    assert rx[1..] == ry[1..];
    var sx := "-" + (HexString(x[12..16]) + ("-" + (HexString(x[16..20]) + ("-" + HexString(x[20..32])))));
    var sy := "-" + (HexString(y[12..16]) + ("-" + (HexString(y[16..20]) + ("-" + HexString(y[20..32])))));
    assert rx[1..] == HexString(x[8..12]) + sx && ry[1..] == HexString(y[8..12]) + sy;
    PeelEqual(HexString(x[8..12]), sx, HexString(y[8..12]), sy);
    HexStringInjective(x[8..12], y[8..12]);
    var tx := "-" + (HexString(x[16..20]) + ("-" + HexString(x[20..32])));
    var ty := "-" + (HexString(y[16..20]) + ("-" + HexString(y[20..32])));
    assert sx[1..] == HexString(x[12..16]) + tx && sy[1..] == HexString(y[12..16]) + ty;
    PeelEqual(HexString(x[12..16]), tx, HexString(y[12..16]), ty);
    HexStringInjective(x[12..16], y[12..16]);
    var ux, uy := "-" + HexString(x[20..32]), "-" + HexString(y[20..32]);
    assert tx[1..] == HexString(x[16..20]) + ux && ty[1..] == HexString(y[16..20]) + uy;
    PeelEqual(HexString(x[16..20]), ux, HexString(y[16..20]), uy);
    HexStringInjective(x[16..20], y[16..20]);
    assert ux[1..] == HexString(x[20..32]) && uy[1..] == HexString(y[20..32]);
    HexStringInjective(x[20..32], y[20..32]);
    SlicesDetermine(x, y);
    assert x == y;
  }

  /** Two sequences of 32 agree when their five groups do. */
  lemma SlicesDetermine(x: seq<int>, y: seq<int>)
    requires |x| == 32 && |y| == 32
    requires x[0..8] == y[0..8] && x[8..12] == y[8..12] && x[12..16] == y[12..16]
    requires x[16..20] == y[16..20] && x[20..32] == y[20..32]
    ensures x == y
  {
    assert x == x[0..8] + x[8..12] + x[12..16] + x[16..20] + x[20..32];
    assert y == y[0..8] + y[8..12] + y[12..16] + y[16..20] + y[20..32];
  }
}
