/** The bytes that core/modules/run-virt/pw_daemon.c sends and that
    core/modules/run-virt/winres/src/winres.c reads: hex keys, the key stream and
    the length-prefixed reply. */
module PasswordCodec {

  import opened Bits

  const KEYLEN: nat := 16

  /** Size of the buffer udpReceived passes to recv. */
  const RECVLEN: nat := 200

  // ----- Keys as hex digits -----

  /** The table of bin2hex. */
  const DIGITS: string := "0123456789abcdef"

  /** What the table holds. */
  function Digit(n: nat): char
    requires n < 16
  {
    if n < 10 then '0' + n as char else 'a' + (n - 10) as char
  }

  lemma TableDigit(n: nat)
    requires n < 16
    ensures DIGITS[n] == Digit(n)
  {
  }

  /** `b >> 4` and `b & 0xf` of a byte. */
  function HexByte(b: Byte): string {
    [Digit(b / 16), Digit(b % 16)]
  }

  function Hex(bin: Bytes): string {
    if bin == [] then "" else Hex(bin[..|bin| - 1]) + HexByte(bin[|bin| - 1])
  }

  /** getbin, an int; anything but 0-9 and A-F counts from 'a'. */
  function GetBin(c: char): int {
    if '0' <= c <= '9' then c as int - '0' as int
    else if 'A' <= c <= 'F' then c as int - 'A' as int + 10
    else c as int - 'a' as int + 10
  }

  /** `(uint8_t)((getbin(hi) << 4) | getbin(lo))`. */
  function PairByte(hi: char, lo: char): Byte {
    LowByte(Or(LowByte(GetBin(hi) * 16), LowByte(GetBin(lo))))
  }

  function Unhex(text: string): Bytes
    decreases |text|
  {
    if |text| < 2 then [] else [PairByte(text[0], text[1])] + Unhex(text[2..])
  }

  lemma DigitValue(n: nat)
    requires n < 16
    ensures GetBin(Digit(n)) == n
  {
  }

  lemma NibblesJoin(h: nat, l: nat)
    requires h < 16 && l < 16
    ensures LowByte(Or(LowByte(h * 16), LowByte(l))) == h * 16 + l
  {
    OrNibbles(h, l);
  }

  lemma DigitsJoin(h: nat, l: nat)
    requires h < 16 && l < 16
    ensures PairByte(Digit(h), Digit(l)) == h * 16 + l
  {
    DigitValue(h);
    DigitValue(l);
    NibblesJoin(h, l);
  }

  lemma UnhexPair(hi: char, lo: char)
    ensures Unhex([hi, lo]) == [PairByte(hi, lo)]
  {
    assert [hi, lo][2..] == "";
  }

  lemma HexByteRoundTrip(b: Byte)
    ensures Unhex(HexByte(b)) == [b]
  {
    DigitsJoin(b / 16, b % 16);
    UnhexPair(Digit(b / 16), Digit(b % 16));
  }

  lemma {:induction false} UnhexConcat(a: string, b: string)
    requires |a| % 2 == 0
    ensures Unhex(a + b) == Unhex(a) + Unhex(b)
    decreases |a|
  {
    if a == "" {
      assert a + b == b;
    } else {
      assert (a + b)[2..] == a[2..] + b;
      UnhexConcat(a[2..], b);
    }
  }

  /** Keys of any length survive the trip through hex digits. */
  lemma {:induction false} HexRoundTrip(bin: Bytes)
    ensures |Hex(bin)| == 2 * |bin| && Unhex(Hex(bin)) == bin
    decreases |bin|
  {
    if bin != [] {
      var front, b := bin[..|bin| - 1], bin[|bin| - 1];
      HexRoundTrip(front);
      UnhexConcat(Hex(front), HexByte(b));
      HexByteRoundTrip(b);
    }
  }

  lemma DigitInTable(n: nat)
    requires n < 16
    ensures Digit(n) in "0123456789abcdef"
  {
    assert DIGITS[n] in DIGITS;
    TableDigit(n);
  }

  /** Two lower-case digits per byte, the high half first. */
  lemma {:induction false} HexAt(bin: Bytes, i: nat)
    requires i < |bin|
    ensures |Hex(bin)| == 2 * |bin|
    ensures GetBin(Hex(bin)[2 * i]) * 16 + GetBin(Hex(bin)[2 * i + 1]) == bin[i]
    ensures Hex(bin)[2 * i] in "0123456789abcdef" && Hex(bin)[2 * i + 1] in "0123456789abcdef"
    decreases |bin|
  {
    var n := |bin| - 1;
    HexRoundTrip(bin);
    HexRoundTrip(bin[..n]);
    if i < n {
      HexAt(bin[..n], i);
    } else {
      DigitValue(bin[n] / 16);
      DigitValue(bin[n] % 16);
      DigitInTable(bin[n] / 16);
      DigitInTable(bin[n] % 16);
    }
  }

  /** hex2bin also understands capital digits. */
  lemma CapitalDigitValue(n: nat)
    requires n < 16
    ensures GetBin("0123456789ABCDEF"[n]) == n
  {
    assert n < 10 ==> "0123456789ABCDEF"[n] == '0' + n as char;
    assert n >= 10 ==> "0123456789ABCDEF"[n] == 'A' + (n - 10) as char;
  }

  method Bin2Hex(bin: array<Byte>) returns (retval: array<char>)
    ensures retval.Length == 2 * bin.Length + 1 && retval[2 * bin.Length] == '\0'
    ensures retval[..2 * bin.Length] == Hex(bin[..])
  {
    retval := new char[bin.Length * 2 + 1](_ => '\0');
    var i := 0;
    while i < bin.Length
      invariant 0 <= i <= bin.Length
      invariant retval[..2 * i] == Hex(bin[..i])
    {
      assert bin[..i + 1][..i] == bin[..i];
      TableDigit(bin[i] / 16);
      TableDigit(bin[i] % 16);
      retval[i * 2] := DIGITS[bin[i] / 16];
      retval[i * 2 + 1] := DIGITS[bin[i] % 16];
      i := i + 1;
      assert retval[..2 * i] == retval[..2 * i - 2] + HexByte(bin[i - 1]);
    }
    retval[i * 2] := '\0';
    assert bin[..bin.Length] == bin[..];
  }

  lemma {:induction false} UnhexAt(text: string, i: nat)
    ensures |Unhex(text)| == |text| / 2
    ensures i < |text| / 2 ==> Unhex(text)[i] == PairByte(text[2 * i], text[2 * i + 1])
    decreases |text|
  {
    if |text| >= 2 {
      UnhexAt(text[2..], if i > 0 then i - 1 else 0);
    }
  }

  method Hex2Bin(text: string) returns (bin: array<Byte>)
    ensures bin[..] == Unhex(text)
  {
    var size := |text| / 2;
    bin := new Byte[size];
    var i, p := 0, 0;
    while i < size
      invariant 0 <= i <= size && p == 2 * i
      invariant forall j :: 0 <= j < i ==> j < |Unhex(text)| && bin[j] == Unhex(text)[j]
    {
      UnhexAt(text, i);
      bin[i] := PairByte(text[p], text[p + 1]);
      i, p := i + 1, p + 2;
    }
    UnhexAt(text, 0);
  }

  // ----- The key stream -----

  function Xored(text: Bytes, key: Bytes): (r: Bytes)
    requires |key| == KEYLEN
    ensures |r| == |text|
    ensures forall i :: 0 <= i < |text| ==> r[i] == XorByte(text[i], key[i % KEYLEN])
  {
    seq(|text|, i requires 0 <= i < |text| => XorByte(text[i], key[i % KEYLEN]))
  }

  lemma XoredTwice(text: Bytes, key: Bytes)
    requires |key| == KEYLEN
    ensures Xored(Xored(text, key), key) == text
  {
    var r := Xored(Xored(text, key), key);
    forall i | 0 <= i < |text|
      ensures r[i] == text[i]
    {
      XorBack(text[i], key[i % KEYLEN]);
    }
  }

  // ----- The reply -----

  /** `(uint8_t)(len & 0xff00) >> 8`: the cast binds first, so nothing is left to shift. */
  function HighLengthByte(len: nat): Byte {
    LowByte(((len / 256 % 256) * 256 % 256) / 256)
  }

  function Reply(password: Bytes, key2: Bytes): Bytes
    requires |key2| == KEYLEN
  {
    [HighLengthByte(|password|), LowByte(|password|)] + Xored(password, key2)
  }

  /** xorString of the daemon. */
  method EncodeReply(password: Bytes, key2: array<Byte>) returns (retval: array<Byte>)
    requires key2.Length == KEYLEN
    ensures retval[..] == Reply(password, key2[..])
  {
    var len := |password|;
    retval := new Byte[len + 2];
    retval[0] := HighLengthByte(len);
    retval[1] := LowByte(len);
    var i := 0;
    while i < len
      invariant 0 <= i <= len
      invariant retval[0] == HighLengthByte(len) && retval[1] == LowByte(len)
      invariant forall j :: 0 <= j < i ==> retval[2 + j] == XorByte(password[j], key2[j % KEYLEN])
    {
      retval[2 + i] := XorByte(password[i], key2[i % KEYLEN]);
      i := i + 1;
    }
    forall j | 0 <= j < len + 2
      ensures retval[j] == Reply(password, key2[..])[j]
    {
      assert j >= 2 ==> retval[2 + (j - 2)] == XorByte(password[j - 2], key2[(j - 2) % KEYLEN]);
    }
  }

  /** Winsock's recv: a datagram longer than the buffer is an error, not a prefix. */
  function Received(datagram: Bytes): int {
    if |datagram| > RECVLEN then -1 else |datagram|
  }

  function ReplyLength(datagram: Bytes): nat
    requires |datagram| >= 2
  {
    var high: int := datagram[0];
    high * 256 + datagram[1]
  }

  /** What udpReceived installs as the password, if anything. */
  function GuestReads(datagram: Bytes, key2: Bytes): Option<Bytes>
    requires |key2| == KEYLEN
  {
    var ret := Received(datagram);
    if ret < 2 then None
    else if ret - 2 != ReplyLength(datagram) then None
    else Some(Xored(datagram[2..], key2))
  }

  lemma HighByteIsZero(len: nat)
    ensures HighLengthByte(len) == 0
  {
    assert (len / 256 % 256) * 256 % 256 == 0;
  }

  /** Which datagrams the guest takes for a password, and what it makes of them. */
  lemma GuestReadsWhen(d: Bytes, key2: Bytes)
    requires |key2| == KEYLEN
    ensures GuestReads(d, key2).Some? <==> 2 <= |d| <= 200 && |d| - 2 == (d[0] as int) * 256 + d[1]
    ensures GuestReads(d, key2).Some? ==>
              var pass := GuestReads(d, key2).value;
              && |pass| == |d| - 2
              && forall i, b: nat :: 0 <= i < |pass| ==> (Bit(pass[i], b) != Bit(d[2 + i], b) <==> Bit(key2[i % 16], b) == 1)
  {
    if GuestReads(d, key2).Some? {
      var pass := GuestReads(d, key2).value;
      forall i, b: nat | 0 <= i < |pass|
        ensures Bit(pass[i], b) != Bit(d[2 + i], b) <==> Bit(key2[i % 16], b) == 1
      {
        XorByteBits(d[2 + i], key2[i % KEYLEN], b);
      }
    }
  }

  /** What the daemon puts on the wire: no high length byte, the length modulo 256, and
      each password byte with exactly the bits flipped that its key byte has set. */
  lemma ReplyBits(password: Bytes, key2: Bytes, i: nat, b: nat)
    requires |key2| == KEYLEN && i < |password|
    ensures var d := Reply(password, key2);
            && |d| == |password| + 2 && d[0] == 0 && d[1] == |password| % 256
            && (Bit(d[2 + i], b) != Bit(password[i], b) <==> Bit(key2[i % 16], b) == 1)
  {
    HighByteIsZero(|password|);
    XorByteBits(password[i], key2[i % KEYLEN], b);
  }

  /** The guest reads back exactly the daemon's password, up to 198 bytes of it. */
  lemma ReplyRoundTrip(password: Bytes, key2: Bytes)
    requires |key2| == KEYLEN
    ensures GuestReads(Reply(password, key2), key2) == if |password| <= RECVLEN - 2 then Some(password) else None
  {
    var d := Reply(password, key2);
    HighByteIsZero(|password|);
    assert d[2..] == Xored(password, key2);
    XoredTwice(password, key2);
  }
}
