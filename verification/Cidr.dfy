/** CIDR matching of core/modules/run-virt/update-doh-list.php: a byte-and-mask
    comparison and its preprocessed form, against the prefix notation of section
    3.1 of RFC 4632 and section 2.3 of RFC 4291. */
module Cidr {
  import opened Bits

  /** The big-endian number an address, as inet_pton returns it, denotes. */
  function Value(bs: Bytes): nat {
    if bs == [] then 0 else Value(bs[..|bs| - 1]) * 256 + bs[|bs| - 1]
  }

  /** PHP's (int) cast takes any prefix; below 0 it compares no bits, beyond the
      address all of them. */
  function Clamp(prefix: int, bits: nat): nat {
    if prefix < 0 then 0 else if prefix > bits then bits else prefix
  }

  /** Two addresses of one length agree on their first `prefix` bits. */
  ghost predicate SamePrefix(a: Bytes, b: Bytes, prefix: int)
    requires |a| == |b|
  {
    var low := Pow2(8 * |a| - Clamp(prefix, 8 * |a|));
    Value(a) / low == Value(b) / low
  }

  // ----- Arithmetic of values -----

  lemma {:induction false} ShrShr(x: nat, j: nat, k: nat)
    ensures Shr(x, j + k) == Shr(Shr(x, j), k)
    decreases j
  {
    if j > 0 {
      ShrShr(x / 2, j - 1, k);
    }
  }

  lemma DropByte(high: nat, low: Byte)
    ensures Shr(high * 256 + low, 8) == high
  {
    ShrDivides(high * 256 + low, 8);
    Powers();
  }

  /** Dropping whole low bytes of an address. */
  lemma {:induction false} DropBytes(a: Bytes, full: nat)
    requires full <= |a|
    ensures Shr(Value(a), 8 * |a| - 8 * full) == Value(a[..full])
    decreases |a|
  {
    if full == |a| {
      assert a[..full] == a;
    } else {
      var front := a[..|a| - 1];
      DropBytes(front, full);
      assert front[..full] == a[..full];
      ShrShr(Value(a), 8, 8 * |front| - 8 * full);
      DropByte(Value(front), a[|a| - 1]);
    }
  }

  lemma {:induction false} ValueInjective(a: Bytes, b: Bytes)
    requires |a| == |b| && Value(a) == Value(b)
    ensures a == b
    decreases |a|
  {
    if a != [] {
      var n := |a| - 1;
      ValueInjective(a[..n], b[..n]);
      assert a == a[..n] + [a[n]] && b == b[..n] + [b[n]];
    }
  }

  /** Dropping low bytes and part of another. */
  lemma DropBits(a: Bytes, full: nat, rem: nat)
    requires full < |a| && 0 < rem < 8
    ensures Shr(Value(a), 8 * |a| - (8 * full + rem)) == Shr(Value(a[..full]) * 256 + a[full], 8 - rem)
  {
    DropBytes(a, full + 1);
    assert a[..full + 1][..full] == a[..full];
    ShrShr(Value(a), 8 * |a| - 8 * (full + 1), 8 - rem);
  }

  lemma {:induction false} ShrOfSum(x: nat, c: nat, u: nat, k: nat)
    ensures Shr(x * Shl(c, k) + u, k) == x * c + Shr(u, k)
    decreases k
  {
    if k > 0 {
      ShrOfSum(x, c, u / 2, k - 1);
      var y := x * Shl(c, k - 1);
      DoubleProduct(x, Shl(c, k - 1));
      HalfSum(y, u);
      assert Shr(x * Shl(c, k) + u, k) == Shr(2 * y + u, k) == Shr(y + u / 2, k - 1);
    }
  }

  lemma DoubleProduct(x: nat, y: nat)
    ensures x * (2 * y) == 2 * (x * y)
  {
  }

  lemma HalfSum(y: nat, u: nat)
    ensures (2 * y + u) / 2 == y + u / 2
  {
  }

  lemma ByteShift(u: Byte, rem: nat)
    requires 0 < rem < 8
    ensures Shl(Pow2(rem), 8 - rem) == 256
    ensures Shr(u, 8 - rem) < Pow2(rem)
  {
    Powers();
    ShrDivides(u, 8 - rem);
    var c := Pow2(rem);
    assert Shl(c, 3) == 8 * c;
    assert Shl(c, 6) == 64 * c;
  }

  lemma ByteSplit(x: nat, y: nat, u: Byte, v: Byte, rem: nat)
    requires 0 < rem < 8
    ensures Shr(x * 256 + u, 8 - rem) == Shr(y * 256 + v, 8 - rem) <==> x == y && Shr(u, 8 - rem) == Shr(v, 8 - rem)
  {
    var c, k := Pow2(rem), 8 - rem;
    ByteShift(u, rem);
    ByteShift(v, rem);
    ShrOfSum(x, c, u, k);
    ShrOfSum(y, c, v, k);
    var s, t := Shr(u, k), Shr(v, k);
    if x * c + s == y * c + t {
      DivUnique(x * c + s, c, x, s);
      DivUnique(y * c + t, c, y, t);
    }
  }

  // ----- The byte-and-mask test -----

  /** intdiv and % of PHP truncate towards zero. */
  function FullBytes(prefix: int): int {
    if prefix >= 0 then prefix / 8 else -((-prefix) / 8)
  }

  function RemainingBits(prefix: int): int {
    prefix - 8 * FullBytes(prefix)
  }

  /** `(~(0xFF >> rem)) & 0xFF`. */
  function Mask(rem: int): Byte
    requires 0 < rem < 8
  {
    ShrDivides(255, rem);
    Powers();
    255 - Shr(255, rem)
  }

  /** Reading past the end of a PHP string gives an empty string, and ord of it 0. */
  function ByteAt(a: Bytes, i: nat): Option<Byte> {
    if i < |a| then Some(a[i]) else None
  }

  function Ord(b: Option<Byte>): Byte {
    match b case Some(x) => x case None => 0
  }

  ghost predicate BytesAgree(a: Bytes, b: Bytes, full: int) {
    forall i :: 0 <= i < full ==> ByteAt(a, i) == ByteAt(b, i)
  }

  ghost predicate TestPasses(a: Bytes, b: Bytes, prefix: int) {
    var full, rem := FullBytes(prefix), RemainingBits(prefix);
    BytesAgree(a, b, full) && (rem > 0 ==> And(Ord(ByteAt(a, full)), Mask(rem)) == And(Ord(ByteAt(b, full)), Mask(rem)))
  }

  function Ones(r: nat): nat {
    if r == 0 then 0 else 2 * Ones(r - 1) + 1
  }

  lemma {:induction false} AndOnes(x: nat, r: nat)
    requires x <= Ones(r)
    ensures And(x, Ones(r)) == x
    decreases r
  {
    if x > 0 {
      AndOnes(x / 2, r - 1);
    }
  }

  lemma {:induction false} AndShifted(x: nat, m: nat, k: nat)
    ensures And(x, Shl(m, k)) == Shl(And(Shr(x, k), m), k)
    decreases k
  {
    if k > 0 {
      AndShifted(x / 2, m, k - 1);
      assert Shl(m, k) / 2 == Shl(m, k - 1) && Shl(m, k) % 2 == 0;
      assert x == 0 ==> x / 2 == 0;
    }
  }

  lemma {:induction false} ShlInjective(x: nat, y: nat, k: nat)
    requires Shl(x, k) == Shl(y, k)
    ensures x == y
    decreases k
  {
    if k > 0 {
      ShlInjective(x, y, k - 1);
    }
  }

  lemma MaskIsOnes(x: Byte, rem: nat)
    requires 0 < rem < 8
    ensures Mask(rem) == Shl(Ones(rem), 8 - rem)
    ensures Shr(x, 8 - rem) <= Ones(rem)
  {
    Powers();
    ShrDivides(255, rem);
    ShrDivides(x, 8 - rem);
    assert Ones(3) == 7;
    assert Ones(6) == 63;
    var t := Ones(rem);
    assert Shl(t, 3) == 8 * t;
    assert Shl(t, 6) == 64 * t;
  }

  lemma MaskIsTopBits(x: Byte, y: Byte, rem: nat)
    requires 0 < rem < 8
    ensures And(x, Mask(rem)) == And(y, Mask(rem)) <==> Shr(x, 8 - rem) == Shr(y, 8 - rem)
  {
    var k := 8 - rem;
    MaskIsOnes(x, rem);
    MaskIsOnes(y, rem);
    AndShifted(x, Ones(rem), k);
    AndShifted(y, Ones(rem), k);
    AndOnes(Shr(x, k), rem);
    AndOnes(Shr(y, k), rem);
    if Shl(Shr(x, k), k) == Shl(Shr(y, k), k) {
      ShlInjective(Shr(x, k), Shr(y, k), k);
    }
  }

  lemma AgreeIsEqual(a: Bytes, b: Bytes, full: nat)
    requires |a| == |b| && full <= |a|
    ensures BytesAgree(a, b, full) <==> a[..full] == b[..full]
  {
    if a[..full] == b[..full] {
      forall i | 0 <= i < full
        ensures ByteAt(a, i) == ByteAt(b, i)
      {
        assert a[i] == a[..full][i] && b[i] == b[..full][i];
      }
    }
    if BytesAgree(a, b, full) {
      forall i | 0 <= i < full
        ensures a[i] == b[i]
      {
        assert ByteAt(a, i) == ByteAt(b, i);
      }
    }
  }

  lemma AgreeBeyond(a: Bytes, b: Bytes, full: nat)
    requires |a| == |b| <= full
    ensures BytesAgree(a, b, full) <==> BytesAgree(a, b, |a|)
  {
  }

  lemma WholeBytes(a: Bytes, b: Bytes, full: nat)
    requires |a| == |b| && full <= |a|
    ensures a[..full] == b[..full] <==> Shr(Value(a), 8 * |a| - 8 * full) == Shr(Value(b), 8 * |a| - 8 * full)
  {
    DropBytes(a, full);
    DropBytes(b, full);
    if Value(a[..full]) == Value(b[..full]) {
      ValueInjective(a[..full], b[..full]);
    }
  }

  lemma PartialByte(a: Bytes, b: Bytes, full: nat, rem: nat)
    requires |a| == |b| && full < |a| && 0 < rem < 8
    ensures a[..full] == b[..full] && Shr(a[full], 8 - rem) == Shr(b[full], 8 - rem) <==>
            Shr(Value(a), 8 * |a| - (8 * full + rem)) == Shr(Value(b), 8 * |a| - (8 * full + rem))
  {
    DropBits(a, full, rem);
    DropBits(b, full, rem);
    ByteSplit(Value(a[..full]), Value(b[..full]), a[full], b[full], rem);
    if Value(a[..full]) == Value(b[..full]) {
      ValueInjective(a[..full], b[..full]);
    }
  }

  /** The test decides exactly whether the addresses share the prefix. */
  lemma TestIsSamePrefix(a: Bytes, b: Bytes, prefix: int)
    requires |a| == |b|
    ensures TestPasses(a, b, prefix) <==> SamePrefix(a, b, prefix)
  {
    var n, full, rem := |a|, FullBytes(prefix), RemainingBits(prefix);
    ShrDivides(Value(a), 8 * n - Clamp(prefix, 8 * n));
    ShrDivides(Value(b), 8 * n - Clamp(prefix, 8 * n));
    if prefix < 0 {
      WholeBytes(a, b, 0);
      AgreeIsEqual(a, b, 0);
    } else if prefix >= 8 * n {
      AgreeBeyond(a, b, full);
      AgreeIsEqual(a, b, n);
      WholeBytes(a, b, n);
    } else if rem == 0 {
      AgreeIsEqual(a, b, full);
      WholeBytes(a, b, full);
    } else {
      AgreeIsEqual(a, b, full);
      MaskIsTopBits(a[full], b[full], rem);
      PartialByte(a, b, full, rem);
    }
  }

  // ----- ipInCidr -----

  /** A CIDR text cut at its slash; `subnet` is None when inet_pton rejects it. */
  datatype CidrText = NoSlash | Slash(subnet: Option<Bytes>, prefix: int)

  ghost predicate InCidr(ip: Option<Bytes>, cidr: CidrText) {
    && cidr.Slash? && ip.Some? && cidr.subnet.Some?
    && |ip.value| == |cidr.subnet.value|
    && SamePrefix(ip.value, cidr.subnet.value, cidr.prefix)
  }

  method IpInCidr(ip: Option<Bytes>, cidr: CidrText) returns (r: bool)
    ensures r <==> InCidr(ip, cidr)
  {
    if cidr.NoSlash? {
      return false;
    }
    if ip.None? || cidr.subnet.None? {
      return false;
    }
    var ipBin, subnetBin := ip.value, cidr.subnet.value;
    if |ipBin| != |subnetBin| {
      return false;
    }
    TestIsSamePrefix(ipBin, subnetBin, cidr.prefix);
    var fullBytes, remainingBits := FullBytes(cidr.prefix), RemainingBits(cidr.prefix);
    var i := 0;
    while i < fullBytes
      invariant 0 <= i && (i <= fullBytes || i == 0)
      invariant BytesAgree(ipBin, subnetBin, i)
    {
      if ByteAt(ipBin, i) != ByteAt(subnetBin, i) {
        return false;
      }
      i := i + 1;
    }
    if remainingBits > 0 {
      var mask := Mask(remainingBits);
      if And(Ord(ByteAt(ipBin, fullBytes)), mask) != And(Ord(ByteAt(subnetBin, fullBytes)), mask) {
        return false;
      }
    }
    return true;
  }

  // ----- loadCidrs and ipMatchesCidrs -----

  /** A line of the CIDR file after trimming. */
  datatype Line = Skipped | Text(cidr: CidrText)

  datatype Record = Record(familyLen: nat, subnetBin: Bytes, fullBytes: int, remainingBits: int, mask: Option<Byte>)

  /** The ranges every run adds: loopback, private, link-local and the like. */
  const BUILTIN: seq<Line> := BUILTIN_V4 + BUILTIN_V6
  const BUILTIN_V4: seq<Line> := (PRIVATE_V4 + LOCAL_V4) + OTHER_V4
  const BUILTIN_V6: seq<Line> := RESERVED_V6 + LOCAL_V6

  const PRIVATE_V4: seq<Line> := [Net([127, 0, 0, 0], 8), Net([10, 0, 0, 0], 8)]
  const LOCAL_V4: seq<Line> := [Net([192, 168, 0, 0], 16), Net([169, 254, 0, 0], 16)]
  const OTHER_V4: seq<Line> := [Net([172, 16, 0, 0], 12), Net([0, 0, 0, 0], 32), Net([255, 255, 255, 255], 32)]
  const RESERVED_V6: seq<Line> := [Net(V6(0, 0, 0), 128), Net(V6(0, 0, 1), 128), Net(V6(0x5f, 0, 0), 16)]
  const LOCAL_V6: seq<Line> := [Net(V6(0xfc, 0, 0), 7), Net(V6(0xfe, 0x80, 0), 64), Net(V6(0xff, 0, 0), 8)]

  function Net(subnet: Bytes, prefix: int): Line {
    Text(Slash(Some(subnet), prefix))
  }

  /** An IPv6 address that is zero but for its first two and its last byte. */
  function V6(b0: Byte, b1: Byte, last: Byte): Bytes {
    [b0, b1] + seq(13, _ => 0) + [last]
  }

  predicate Usable(line: Line) {
    line.Text? && line.cidr.Slash? && line.cidr.subnet.Some?
  }

  function RecordOf(subnet: Bytes, prefix: int): Record {
    var rem := RemainingBits(prefix);
    Record(|subnet|, subnet, FullBytes(prefix), rem, if rem > 0 then Some(Mask(rem)) else None)
  }

  function Records(lines: seq<Line>): seq<Record> {
    if lines == [] then []
    else
      var line := lines[|lines| - 1];
      Records(lines[..|lines| - 1]) +
      if Usable(line) then [RecordOf(line.cidr.subnet.value, line.cidr.prefix)] else []
  }

  method LoadCidrs(file: seq<Line>) returns (result: seq<Record>)
    ensures result == Records(file + BUILTIN)
  {
    var lines := file + BUILTIN;
    result := [];
    for k := 0 to |lines|
      invariant result == Records(lines[..k])
    {
      assert lines[..k + 1][..k] == lines[..k];
      var line := lines[k];
      if line.Skipped? {
        continue;
      }
      if line.cidr.NoSlash? {
        continue;
      }
      if line.cidr.subnet.None? {
        continue;
      }
      var subnetBin := line.cidr.subnet.value;
      var fullBytes, remainingBits := FullBytes(line.cidr.prefix), RemainingBits(line.cidr.prefix);
      var mask := None;
      if remainingBits > 0 {
        mask := Some(Mask(remainingBits));
      }
      result := result + [Record(|subnetBin|, subnetBin, fullBytes, remainingBits, mask)];
    }
    assert lines[..|lines|] == lines;
  }

  ghost predicate RecordMatches(ip: Bytes, rec: Record) {
    && |ip| == rec.familyLen
    && BytesAgree(ip, rec.subnetBin, rec.fullBytes)
    && (rec.remainingBits > 0 && rec.fullBytes >= 0 && rec.mask.Some? ==>
          And(Ord(ByteAt(ip, rec.fullBytes)), rec.mask.value) == And(Ord(ByteAt(rec.subnetBin, rec.fullBytes)), rec.mask.value))
  }

  method IpMatchesCidrs(ip: Option<Bytes>, cidrs: seq<Record>) returns (r: bool)
    requires forall k :: 0 <= k < |cidrs| ==> cidrs[k].remainingBits > 0 ==> cidrs[k].mask.Some? && cidrs[k].fullBytes >= 0
    ensures r <==> ip.Some? && exists k :: 0 <= k < |cidrs| && RecordMatches(ip.value, cidrs[k])
  {
    if ip.None? {
      return false;
    }
    var ipBin := ip.value;
    for k := 0 to |cidrs|
      invariant forall j :: 0 <= j < k ==> !RecordMatches(ipBin, cidrs[j])
    {
      var cidr := cidrs[k];
      if |ipBin| != cidr.familyLen {
        continue;
      }
      var matched := true;
      var i := 0;
      while i < cidr.fullBytes
        invariant 0 <= i && (i <= cidr.fullBytes || i == 0)
        invariant matched && BytesAgree(ipBin, cidr.subnetBin, i)
      {
        if ByteAt(ipBin, i) != ByteAt(cidr.subnetBin, i) {
          matched := false;
          break;
        }
        i := i + 1;
      }
      if !matched {
        continue;
      }
      if cidr.remainingBits > 0 {
        var mask, idx := cidr.mask.value, cidr.fullBytes;
        if And(Ord(ByteAt(ipBin, idx)), mask) != And(Ord(ByteAt(cidr.subnetBin, idx)), mask) {
          continue;
        }
      }
      return true;
    }
    return false;
  }

  lemma RecordIsLine(ip: Bytes, subnet: Bytes, prefix: int)
    ensures RecordMatches(ip, RecordOf(subnet, prefix)) <==> InCidr(Some(ip), Slash(Some(subnet), prefix))
  {
    if |ip| == |subnet| {
      TestIsSamePrefix(ip, subnet, prefix);
    }
  }

  /** Matching the records of a file decides exactly whether some line holds the address. */
  lemma {:induction false} RecordsMatchLines(ip: Bytes, lines: seq<Line>)
    ensures (exists k :: 0 <= k < |Records(lines)| && RecordMatches(ip, Records(lines)[k])) <==>
            exists k :: 0 <= k < |lines| && lines[k].Text? && InCidr(Some(ip), lines[k].cidr)
    ensures forall k :: 0 <= k < |Records(lines)| ==>
              var rec := Records(lines)[k]; rec.remainingBits > 0 ==> rec.mask.Some? && rec.fullBytes >= 0
    decreases |lines|
  {
    if lines != [] {
      var front, line := lines[..|lines| - 1], lines[|lines| - 1];
      RecordsMatchLines(ip, front);
      assert forall k :: 0 <= k < |front| ==> front[k] == lines[k];
      var before, after := Records(front), Records(lines);
      assert forall k :: 0 <= k < |before| ==> after[k] == before[k];
      if Usable(line) {
        RecordIsLine(ip, line.cidr.subnet.value, line.cidr.prefix);
        assert after == before + [RecordOf(line.cidr.subnet.value, line.cidr.prefix)];
        assert after[|before|] == RecordOf(line.cidr.subnet.value, line.cidr.prefix);
      }
    }
  }

  // ----- The built-in ranges -----

  /** A prefix is a number of whole bytes and some top bits of the next one. */
  lemma PrefixIsBytes(a: Bytes, b: Bytes, full: nat, rem: nat)
    requires |a| == |b| && 8 * full + rem <= 8 * |a| && rem < 8
    ensures SamePrefix(a, b, 8 * full + rem) <==>
            a[..full] == b[..full] && (rem > 0 ==> a[full] / Pow2(8 - rem) == b[full] / Pow2(8 - rem))
  {
    ShrDivides(Value(a), 8 * |a| - (8 * full + rem));
    ShrDivides(Value(b), 8 * |a| - (8 * full + rem));
    if rem == 0 {
      WholeBytes(a, b, full);
    } else {
      PartialByte(a, b, full, rem);
      ShrDivides(a[full], 8 - rem);
      ShrDivides(b[full], 8 - rem);
    }
  }

  /** Loopback, private, link-local, unspecified and broadcast IPv4 addresses. */
  predicate SpecialV4(ip: Bytes) {
    && |ip| == 4
    && (|| ip[0] == 127 || ip[0] == 10 || (ip[0] == 192 && ip[1] == 168) || (ip[0] == 169 && ip[1] == 254)
        || (ip[0] == 172 && 16 <= ip[1] <= 31) || ip == [0, 0, 0, 0] || ip == [255, 255, 255, 255])
  }

  /** Unspecified, loopback, 5f00::/16, unique local, link-local and multicast IPv6 addresses. */
  predicate SpecialV6(ip: Bytes) {
    && |ip| == 16
    && (|| ((forall i :: 0 <= i < 15 ==> ip[i] == 0) && ip[15] <= 1)
        || (ip[0] == 0x5f && ip[1] == 0) || ip[0] == 0xfc || ip[0] == 0xfd
        || (ip[0] == 0xfe && ip[1] == 0x80 && forall i :: 2 <= i < 8 ==> ip[i] == 0)
        || ip[0] == 0xff)
  }

  /** Whether two addresses share a prefix of n bytes. */
  lemma WholeNet(ip: Bytes, net: Bytes, n: nat)
    requires |ip| == |net| && n <= |ip|
    ensures SamePrefix(ip, net, 8 * n) <==> forall i :: 0 <= i < n ==> ip[i] == net[i]
  {
    PrefixIsBytes(ip, net, n, 0);
    SameBytes(ip, net, n);
  }

  lemma TwelveBitNet(ip: Bytes, net: Bytes)
    requires |ip| == |net| >= 2
    ensures SamePrefix(ip, net, 12) <==> ip[0] == net[0] && ip[1] / 16 == net[1] / 16
  {
    PrefixIsBytes(ip, net, 1, 4);
    Powers();
    SameBytes(ip, net, 1);
  }

  lemma SevenBitNet(ip: Bytes, net: Bytes)
    requires |ip| == |net| >= 1
    ensures SamePrefix(ip, net, 7) <==> ip[0] / 2 == net[0] / 2
  {
    PrefixIsBytes(ip, net, 0, 7);
    Powers();
  }

  /** Some line of a list holds the address. */
  ghost predicate Held(ip: Bytes, lines: seq<Line>) {
    exists l :: l in lines && l.Text? && InCidr(Some(ip), l.cidr)
  }

  /** A line is one of the first kind or of the second. */
  lemma HeldSplit(ip: Bytes, a: seq<Line>, b: seq<Line>)
    ensures Held(ip, a + b) <==> Held(ip, a) || Held(ip, b)
  {
    assert forall l :: l in a + b <==> l in a || l in b;
  }

  /** No address of one length is held by networks of another. */
  lemma OtherFamily(ip: Bytes, lines: seq<Line>)
    requires forall l :: l in lines ==> l.Text? && l.cidr.Slash? && l.cidr.subnet.Some? && |l.cidr.subnet.value| != |ip|
    ensures !Held(ip, lines)
  {
  }

  lemma HeldTwo(ip: Bytes, a: Line, b: Line)
    requires a.Text? && b.Text?
    ensures Held(ip, [a, b]) <==> InCidr(Some(ip), a.cidr) || InCidr(Some(ip), b.cidr)
  {
    assert a in [a, b] && b in [a, b];
  }

  lemma HeldThree(ip: Bytes, a: Line, b: Line, c: Line)
    requires a.Text? && b.Text? && c.Text?
    ensures Held(ip, [a, b, c]) <==> InCidr(Some(ip), a.cidr) || InCidr(Some(ip), b.cidr) || InCidr(Some(ip), c.cidr)
  {
    assert a in [a, b, c] && b in [a, b, c] && c in [a, b, c];
  }

  lemma PrivateNets(ip: Bytes)
    requires |ip| == 4
    ensures Held(ip, PRIVATE_V4) <==> ip[0] == 127 || ip[0] == 10
  {
    HeldTwo(ip, Net([127, 0, 0, 0], 8), Net([10, 0, 0, 0], 8));
    WholeNet(ip, [127, 0, 0, 0], 1);
    WholeNet(ip, [10, 0, 0, 0], 1);
  }

  lemma LocalNets(ip: Bytes)
    requires |ip| == 4
    ensures Held(ip, LOCAL_V4) <==> (ip[0] == 192 && ip[1] == 168) || (ip[0] == 169 && ip[1] == 254)
  {
    HeldTwo(ip, Net([192, 168, 0, 0], 16), Net([169, 254, 0, 0], 16));
    WholeNet(ip, [192, 168, 0, 0], 2);
    WholeNet(ip, [169, 254, 0, 0], 2);
  }

  lemma OtherV4Nets(ip: Bytes)
    requires |ip| == 4
    ensures Held(ip, OTHER_V4) <==>
            (ip[0] == 172 && 16 <= ip[1] <= 31) || ip == [0, 0, 0, 0] || ip == [255, 255, 255, 255]
  {
    HeldThree(ip, Net([172, 16, 0, 0], 12), Net([0, 0, 0, 0], 32), Net([255, 255, 255, 255], 32));
    TwelveBitNet(ip, [172, 16, 0, 0]);
    WholeNet(ip, [0, 0, 0, 0], 4);
    WholeNet(ip, [255, 255, 255, 255], 4);
  }

  lemma ReservedV6Nets(ip: Bytes)
    requires |ip| == 16
    ensures Held(ip, RESERVED_V6) <==>
            ((forall i :: 0 <= i < 15 ==> ip[i] == 0) && ip[15] <= 1) || (ip[0] == 0x5f && ip[1] == 0)
  {
    HeldThree(ip, Net(V6(0, 0, 0), 128), Net(V6(0, 0, 1), 128), Net(V6(0x5f, 0, 0), 16));
    ZeroNet(ip, 0);
    ZeroNet(ip, 1);
    WholeNet(ip, V6(0x5f, 0, 0), 2);
  }

  lemma LocalV6Nets(ip: Bytes)
    requires |ip| == 16
    ensures Held(ip, LOCAL_V6) <==>
            || ip[0] == 0xfc || ip[0] == 0xfd || ip[0] == 0xff
            || (ip[0] == 0xfe && ip[1] == 0x80 && forall i :: 2 <= i < 8 ==> ip[i] == 0)
  {
    HeldThree(ip, Net(V6(0xfc, 0, 0), 7), Net(V6(0xfe, 0x80, 0), 64), Net(V6(0xff, 0, 0), 8));
    SevenBitNet(ip, V6(0xfc, 0, 0));
    LinkLocalNet(ip);
    WholeNet(ip, V6(0xff, 0, 0), 1);
  }

  lemma LinkLocalNet(ip: Bytes)
    requires |ip| == 16
    ensures SamePrefix(ip, V6(0xfe, 0x80, 0), 64) <==> ip[0] == 0xfe && ip[1] == 0x80 && forall i :: 2 <= i < 8 ==> ip[i] == 0
  {
    WholeNet(ip, V6(0xfe, 0x80, 0), 8);
  }

  lemma FamilySizes(ip: Bytes)
    ensures |ip| != 4 ==> !Held(ip, PRIVATE_V4) && !Held(ip, LOCAL_V4) && !Held(ip, OTHER_V4)
    ensures |ip| != 16 ==> !Held(ip, RESERVED_V6) && !Held(ip, LOCAL_V6)
  {
    if |ip| != 4 {
      OtherFamily(ip, PRIVATE_V4);
      OtherFamily(ip, LOCAL_V4);
      OtherFamily(ip, OTHER_V4);
    }
    if |ip| != 16 {
      OtherFamily(ip, RESERVED_V6);
      OtherFamily(ip, LOCAL_V6);
    }
  }

  lemma ZeroNet(ip: Bytes, last: Byte)
    requires |ip| == 16
    ensures SamePrefix(ip, V6(0, 0, last), 128) <==> (forall i :: 0 <= i < 15 ==> ip[i] == 0) && ip[15] == last
  {
    WholeNet(ip, V6(0, 0, last), 16);
  }

  lemma SameBytes(a: Bytes, b: Bytes, n: nat)
    requires |a| == |b| && n <= |a|
    ensures a[..n] == b[..n] <==> forall i :: 0 <= i < n ==> a[i] == b[i]
  {
    if a[..n] == b[..n] {
      forall i | 0 <= i < n ensures a[i] == b[i] {
        assert a[i] == a[..n][i] && b[i] == b[..n][i];
      }
    }
  }

  /** The built-in lines hold exactly the special addresses. */
  lemma BuiltinHolds(ip: Bytes)
    requires |ip| == 4 || |ip| == 16
    ensures Held(ip, BUILTIN) <==> SpecialV4(ip) || SpecialV6(ip)
  {
    HeldSplit(ip, BUILTIN_V4, BUILTIN_V6);
    HeldSplit(ip, PRIVATE_V4 + LOCAL_V4, OTHER_V4);
    HeldSplit(ip, PRIVATE_V4, LOCAL_V4);
    HeldSplit(ip, RESERVED_V6, LOCAL_V6);
    FamilySizes(ip);
    if |ip| == 4 {
      PrivateNets(ip);
      LocalNets(ip);
      OtherV4Nets(ip);
    } else {
      ReservedV6Nets(ip);
      LocalV6Nets(ip);
    }
  }

  lemma HeldAt(ip: Bytes, lines: seq<Line>)
    ensures Held(ip, lines) <==> exists k :: 0 <= k < |lines| && lines[k].Text? && InCidr(Some(ip), lines[k].cidr)
  {
    if Held(ip, lines) {
      var l :| l in lines && l.Text? && InCidr(Some(ip), l.cidr);
      var k :| 0 <= k < |lines| && lines[k] == l;
    }
  }

  /** The main program's filter: preprocess once, then match each address. */
  method Excluded(ip: Option<Bytes>, file: seq<Line>) returns (r: bool)
    ensures r <==> ip.Some? && Held(ip.value, file + BUILTIN)
    ensures ip.Some? && (|ip.value| == 4 || |ip.value| == 16) ==>
              (r <==> Held(ip.value, file) || SpecialV4(ip.value) || SpecialV6(ip.value))
  {
    var cidrs := LoadCidrs(file);
    ghost var address := if ip.Some? then ip.value else [];
    RecordsMatchLines(address, file + BUILTIN);
    HeldAt(address, file + BUILTIN);
    HeldSplit(address, file, BUILTIN);
    if |address| == 4 || |address| == 16 {
      BuiltinHolds(address);
    }
    r := IpMatchesCidrs(ip, cidrs);
  }
}
