/** The Internet checksum of the IPv4, UDP and TCP headers (RFC 1071;
    src/kernel/net/net_utils.c). */
module Checksum {

  const IP_PROTO_TCP: nat := 6
  const IP_PROTO_UDP: nat := 17
  const WORD: nat := 0x1_0000
  const WRAP: nat := 0x1_0000_0000

  type Byte = b: int | 0 <= b < 256

  function Pair(hi: int, lo: int): int
  {
    hi * 256 + lo
  }

  // ----- sums of 16-bit words -----

  /** Word i of the data in network order, the last one padded with a zero byte. */
  function WordAt(data: seq<Byte>, i: nat): nat
    requires 2 * i < |data|
  {
    Pair(data[2 * i], if 2 * i + 1 < |data| then data[2 * i + 1] else 0)
  }

  function Words(data: seq<Byte>): nat
  {
    (|data| + 1) / 2
  }

  /** The exact sum of the first n words. */
  function SumWords(data: seq<Byte>, n: nat): (sum: nat)
    requires n <= Words(data)
    ensures sum <= 65535 * n
  {
    if n == 0 then 0 else SumWords(data, n - 1) + WordAt(data, n - 1)
  }

  lemma PartialSum(data: seq<Byte>, n: nat)
    requires n <= Words(data)
    ensures SumWords(data, n) <= 65535 * Words(data)
  {
  }

  function Total(data: seq<Byte>): nat
  {
    SumWords(data, Words(data))
  }

  /** checksum_add_bytes: 32-bit arithmetic, which does not wrap for the lengths in use. */
  method AddBytes(start: nat, data: seq<Byte>) returns (sum: nat)
    requires start + 65535 * Words(data) < WRAP
    ensures sum == start + Total(data)
  {
    sum := start;
    var i := 0;
    ghost var k := 0;
    while i + 1 < |data|
      invariant i == 2 * k <= |data|
      invariant sum == start + SumWords(data, k)
    {
      PartialSum(data, k + 1);
      sum := (sum + Pair(data[i], data[i + 1])) % WRAP;
      i := i + 2;
      k := k + 1;
    }
    if i < |data| {
      sum := (sum + Pair(data[i], 0)) % WRAP;
    }
  }

  // ----- folding -----

  /** The representative of a sum modulo 65535 that is 0 only for the sum 0. */
  function Residue(sum: nat): (r: nat)
    ensures r < WORD && (r == 0 <==> sum == 0) && (r == 65535 <==> sum > 0 && sum % 65535 == 0)
  {
    if sum == 0 then 0 else if sum % 65535 == 0 then 65535 else sum % 65535
  }

  /** The loop of checksum_finalize: add the high half to the low half until it is 0. */
  function Fold(sum: nat): (r: nat)
    ensures r == Residue(sum)
    decreases sum
  {
    if sum < WORD then sum else
      FoldStep(sum);
      Fold(sum % WORD + sum / WORD)
  }

  lemma FoldStep(sum: nat)
    requires sum >= WORD
    ensures var s := sum % WORD + sum / WORD; 0 < s < sum && Residue(s) == Residue(sum)
  {
    var hi, lo := sum / WORD, sum % WORD;
    assert sum == hi * 65535 + (hi + lo);
    Congruent(hi + lo, hi);
  }

  lemma Congruent(a: nat, k: nat)
    ensures (k * 65535 + a) % 65535 == a % 65535
  {
  }

  method Finalize(sum: nat) returns (checksum: nat)
    requires sum < WRAP
    ensures checksum == 65535 - Residue(sum)
  {
    var s: nat := sum;
    while s / WORD != 0
      invariant s < WRAP && Fold(s) == Fold(sum)
      decreases s
    {
      FoldStep(s);
      s := s % WORD + s / WORD;
    }
    checksum := 65535 - s;
  }

  // ----- the three checksums -----

  /** What the code adds up for the pseudo header. */
  function PseudoHeader(src: nat, dst: nat, proto: nat, length: nat): nat
  {
    src / WORD % WORD + src % WORD + dst / WORD % WORD + dst % WORD + proto + length
  }

  /** A 16-bit number in network order. */
  function Net16(n: nat): (bytes: seq<Byte>)
    requires n < WORD
    ensures |bytes| == 2
  {
    [n / 256, n % 256]
  }

  function Net32(n: nat): (bytes: seq<Byte>)
    requires n < WRAP
    ensures |bytes| == 4
  {
    Net16(n / WORD) + Net16(n % WORD)
  }

  /** The pseudo header of section 9.6.1 of RFC 9293 and of RFC 768: both
      addresses, a zero, the protocol, and the length. */
  function PseudoBytes(src: nat, dst: nat, proto: Byte, length: nat): (bytes: seq<Byte>)
    requires src < WRAP && dst < WRAP && length < WORD
    ensures |bytes| == 12
  {
    Net32(src) + Net32(dst) + [0, proto] + Net16(length)
  }

  /** The sum over two pieces, the first of even length. */
  lemma {:induction false} SumConcat(a: seq<Byte>, b: seq<Byte>, h: nat, n: nat)
    requires |a| == 2 * h && n <= Words(b)
    ensures Words(a + b) == h + Words(b) && SumWords(a + b, h + n) == SumWords(a, h) + SumWords(b, n)
    decreases n
  {
    if n == 0 {
      SumFront(a, b, h, h);
    } else {
      SumConcat(a, b, h, n - 1);
      assert WordAt(a + b, h + n - 1) == WordAt(b, n - 1);
    }
  }

  lemma {:induction false} SumFront(a: seq<Byte>, b: seq<Byte>, h: nat, n: nat)
    requires |a| == 2 * h && n <= h
    ensures SumWords(a + b, n) == SumWords(a, n)
    decreases n
  {
    if n > 0 {
      SumFront(a, b, h, n - 1);
    }
  }

  lemma TotalConcat(a: seq<Byte>, b: seq<Byte>)
    requires |a| % 2 == 0
    ensures Total(a + b) == Total(a) + Total(b)
  {
    SumConcat(a, b, |a| / 2, Words(b));
  }

  /** A last odd byte counts as if a zero byte followed. */
  lemma Padded(data: seq<Byte>)
    requires |data| % 2 == 1
    ensures Total(data + [0]) == Total(data)
  {
    var n := |data| - 1;
    assert data == data[..n] + [data[n]] && data + [0] == data[..n] + [data[n], 0];
    TotalConcat(data[..n], [data[n]]);
    TotalConcat(data[..n], [data[n], 0]);
    TwoBytes(data[n], 0);
    assert SumWords([data[n]], 1) == SumWords([data[n]], 0) + WordAt([data[n]], 0);
  }

  lemma TwoBytes(hi: Byte, lo: Byte)
    ensures Total([hi, lo]) == Pair(hi, lo)
  {
    var two := [hi, lo];
    assert SumWords(two, 1) == SumWords(two, 0) + WordAt(two, 0);
  }

  lemma TotalNet16(n: nat)
    requires n < WORD
    ensures Total(Net16(n)) == n
  {
    TwoBytes(n / 256, n % 256);
  }

  lemma TotalNet32(n: nat)
    requires n < WRAP
    ensures Total(Net32(n)) == n / WORD + n % WORD
  {
    TotalNet16(n / WORD);
    TotalNet16(n % WORD);
    TotalConcat(Net16(n / WORD), Net16(n % WORD));
  }

  lemma TotalFour(a: seq<Byte>, b: seq<Byte>, c: seq<Byte>, d: seq<Byte>)
    requires |a| % 2 == 0 && |b| % 2 == 0 && |c| % 2 == 0
    ensures Total(a + b + c + d) == Total(a) + Total(b) + Total(c) + Total(d)
  {
    TotalConcat(a, b);
    TotalConcat(a + b, c);
    TotalConcat(a + b + c, d);
  }

  lemma Halves(n: nat)
    requires n < WRAP
    ensures n / WORD % WORD == n / WORD
  {
  }

  /** What the code adds up is the sum of the pseudo header's words. */
  lemma PseudoHeaderIsTotal(src: nat, dst: nat, proto: Byte, length: nat)
    requires src < WRAP && dst < WRAP && length < WORD
    ensures PseudoHeader(src, dst, proto, length) == Total(PseudoBytes(src, dst, proto, length))
  {
    Halves(src);
    Halves(dst);
    TotalNet32(src);
    TotalNet32(dst);
    TwoBytes(0, proto);
    TotalNet16(length);
    TotalFour(Net32(src), Net32(dst), [0, proto], Net16(length));
  }

  method Ipv4Checksum(header: seq<Byte>) returns (c: nat)
    requires |header| <= 65535
    ensures c == 65535 - Residue(Total(header))
  {
    var sum := AddBytes(0, header);
    c := Finalize(sum);
  }

  method UdpChecksum(src: nat, dst: nat, packet: seq<Byte>) returns (c: nat)
    requires src < WRAP && dst < WRAP && |packet| <= 65535
    ensures c == Sent(65535 - Residue(Total(PseudoBytes(src, dst, IP_PROTO_UDP, |packet|) + packet)))
  {
    PseudoHeaderIsTotal(src, dst, IP_PROTO_UDP, |packet|);
    TotalConcat(PseudoBytes(src, dst, IP_PROTO_UDP, |packet|), packet);
    var sum := AddBytes(PseudoHeader(src, dst, IP_PROTO_UDP, |packet|), packet);
    var result := Finalize(sum);
    c := if result == 0 then 0xFFFF else result;
  }

  method TcpChecksum(src: nat, dst: nat, packet: seq<Byte>) returns (c: nat)
    requires src < WRAP && dst < WRAP && |packet| <= 65535
    ensures c == 65535 - Residue(Total(PseudoBytes(src, dst, IP_PROTO_TCP, |packet|) + packet))
  {
    PseudoHeaderIsTotal(src, dst, IP_PROTO_TCP, |packet|);
    TotalConcat(PseudoBytes(src, dst, IP_PROTO_TCP, |packet|), packet);
    var sum := AddBytes(PseudoHeader(src, dst, IP_PROTO_TCP, |packet|), packet);
    c := Finalize(sum);
  }

  /** UDP never sends a zero checksum. */
  function Sent(c: nat): nat
  {
    if c == 0 then 0xFFFF else c
  }

  // ----- what the checks accept -----

  /** A computed checksum is 0 exactly when the sum is a nonzero multiple of
      65535, and 0xFFFF exactly when the sum is 0. */
  lemma CheckMeaning(sum: nat)
    ensures 65535 - Residue(sum) == 0 <==> sum > 0 && sum % 65535 == 0
    ensures 65535 - Residue(sum) == 0xFFFF <==> sum == 0
  {
  }

  /** The UDP and TCP receive checks, which also let 0xFFFF through, accept
      exactly the sums that are multiples of 65535. */
  lemma ReceiversAccept(sum: nat)
    requires sum > 0
    ensures Sent(65535 - Residue(sum)) in {0, 0xFFFF} <==> sum % 65535 == 0
    ensures 65535 - Residue(sum) in {0, 0xFFFF} <==> sum % 65535 == 0
  {
    CheckMeaning(sum);
  }

  /** The receive check over a whole packet. */
  predicate Accepted(start: nat, data: seq<Byte>) {
    Verdict(start, data) == 0
  }

  /** What the receiver computes over the packet, its checksum field included. */
  function Verdict(start: nat, data: seq<Byte>): nat {
    65535 - Residue(start + Total(data))
  }

  /** Replacing one word changes the total by the difference. */
  lemma {:induction false} ReplacedWord(data: seq<Byte>, data': seq<Byte>, k: nat, n: nat)
    requires |data| == |data'| && k < Words(data) && n <= Words(data)
    requires forall i: nat :: i < Words(data) && i != k ==> WordAt(data', i) == WordAt(data, i)
    ensures SumWords(data', n) + (if k < n then WordAt(data, k) else 0)
         == SumWords(data, n) + (if k < n then WordAt(data', k) else 0)
    decreases n
  {
    if n > 0 {
      ReplacedWord(data, data', k, n - 1);
    }
  }

  /** The packet with the 16-bit value v at word k, in network order. */
  function WithWord(data: seq<Byte>, k: nat, v: nat): (r: seq<Byte>)
    requires 2 * k + 1 < |data| && v < WORD
    ensures |r| == |data| && WordAt(r, k) == v
    ensures forall i: nat :: i < Words(data) && i != k ==> WordAt(r, i) == WordAt(data, i)
  {
    data[2 * k := v / 256][2 * k + 1 := v % 256]
  }

  lemma TotalWith(data: seq<Byte>, k: nat, v: nat)
    requires 2 * k + 1 < |data| && v < WORD
    ensures Total(WithWord(data, k, v)) + WordAt(data, k) == Total(data) + v
  {
    var r, n := WithWord(data, k, v), Words(data);
    WordInside(|data|, k);
    ReplacedWord(data, r, k, n);
    assert Words(r) == n;
  }

  lemma WordInside(length: nat, k: nat)
    requires 2 * k + 1 < length
    ensures k < (length + 1) / 2
  {
  }

  lemma PassesWith(start: nat, data: seq<Byte>, k: nat, c: nat, sum: nat)
    requires 2 * k + 1 < |data| && WordAt(data, k) == 0 && c < WORD
    requires sum == start + Total(data) + c && sum % 65535 == 0 && sum > 0
    ensures Accepted(start, WithWord(data, k, c))
  {
    TotalWith(data, k, c);
    assert start + Total(WithWord(data, k, c)) == sum;
    CheckMeaning(sum);
  }

  /** Round trip: the checksum computed while its field is zero, once inserted,
      makes the receiver compute 0; so does UDP's 0xFFFF in place of 0. `start`
      is the pseudo header's sum, 0 for IPv4. */
  lemma InsertedPasses(start: nat, data: seq<Byte>, k: nat, c: nat)
    requires 2 * k + 1 < |data| && WordAt(data, k) == 0 && c == Verdict(start, data)
    ensures Accepted(start, WithWord(data, k, c)) && Accepted(start, WithWord(data, k, Sent(c)))
  {
    var sum := start + Total(data);
    Complement(sum, c);
    PassesWith(start, data, k, c, sum + c);
    if c == 0 {
      PassesWith(start, data, k, 0xFFFF, sum + 0xFFFF);
    }
  }

  lemma Complement(sum: nat, c: nat)
    requires c == 65535 - Residue(sum)
    ensures (sum + c) % 65535 == 0 && sum + c > 0
    ensures (sum + Sent(c)) % 65535 == 0 && sum + Sent(c) > 0
  {
    var q := sum / 65535;
    assert sum == 65535 * q + sum % 65535;
  }

  /** Changing one 16-bit word of an accepted packet is noticed unless it swaps
      0x0000 and 0xFFFF. */
  lemma OneWordDetected(start: nat, data: seq<Byte>, k: nat, v: nat)
    requires 2 * k + 1 < |data| && v < WORD && start + Total(WithWord(data, k, v)) > 0
    requires Accepted(start, data)
    ensures Accepted(start, WithWord(data, k, v)) <==>
              v == WordAt(data, k) || {v, WordAt(data, k)} == {0, 0xFFFF}
  {
    var was := WordAt(data, k);
    var data' := WithWord(data, k, v);
    TotalWith(data, k, v);
    CheckMeaning(start + Total(data));
    CheckMeaning(start + Total(data'));
    SameResidue(start + Total(data), was, v);
    assert {v, was} == {0, 0xFFFF} <==> (v == 0 && was == 0xFFFF) || (v == 0xFFFF && was == 0) by {
      assert v in {v, was} && was in {v, was};
    }
  }

  lemma SameResidue(sum: nat, was: nat, v: nat)
    requires sum % 65535 == 0 && was < WORD && v < WORD && was <= sum
    ensures (sum - was + v) % 65535 == 0 <==> v == was || (v == 0 && was == 65535) || (v == 65535 && was == 0)
  {
    var q := sum / 65535;
    assert sum - was + v == 65535 * q + (v - was);
  }
}
