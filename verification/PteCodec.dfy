/** How a page table entry lies in a 64-bit word, and why the record updates of
    PageTable are the bit operations of src/kernel/mm/vmm.c. */
module PteCodec {
  import opened PageTable

  function B(b: bool): nat
  {
    if b then 1 else 0
  }

  /** From bit 0 up: PRESENT, WRITE, USER, bits 3..6, bit 7, bits 8..11, frame. */
  function Encode(e: Pte): nat
  {
    B(e.present) + 2 * (B(e.write) + 2 * (B(e.user) + 2 * Upper(e)))
  }

  function Upper(e: Pte): nat
  {
    e.rest % 16 + 16 * (B(e.huge) + 2 * (e.rest / 16 + 16 * e.frame))
  }

  function Decode(n: nat): Pte
  {
    var user := n / 2 / 2;
    var upper := user / 2;
    var big := upper / 16;
    var high := big / 2;
    Pte(n % 2 == 1, n / 2 % 2 == 1, user % 2 == 1, big % 2 == 1, upper % 16 + 16 * (high % 16), high / 16)
  }

  /** Entries and 64-bit words correspond one to one. */
  lemma RoundTrip(e: Pte)
    requires e.rest < 256
    ensures Decode(Encode(e)) == e
  {
    var n := Encode(e);
    assert n / 2 == B(e.write) + 2 * (B(e.user) + 2 * Upper(e));
    assert n / 2 / 2 == B(e.user) + 2 * Upper(e);
    assert n / 2 / 2 / 2 == Upper(e);
    assert Upper(e) / 16 == B(e.huge) + 2 * (e.rest / 16 + 16 * e.frame);
    assert Upper(e) / 16 / 2 == e.rest / 16 + 16 * e.frame;
  }

  lemma WordRoundTrip(n: nat)
    ensures Encode(Decode(n)) == n && Decode(n).rest < 256
  {
    var upper := n / 2 / 2 / 2;
    var high := upper / 16 / 2;
    var rest := upper % 16 + 16 * (high % 16);
    assert rest % 16 == upper % 16 && rest / 16 == high % 16;
  }

  /** The word with the bit of that weight set, or cleared. */
  function OrBit(n: nat, bit: nat): nat
    requires bit in {1, 2, 4}
  {
    if bit == 1 then (if n % 2 == 1 then n else n + 1)
    else if bit == 2 then (if n / 2 % 2 == 1 then n else n + 2)
    else (if n / 4 % 2 == 1 then n else n + 4)
  }

  function WithoutBit7(n: nat): nat
  {
    if n / 128 % 2 == 1 then n - 128 else n
  }

  lemma Shifts(n: nat)
    ensures n / 4 == n / 2 / 2 && n / 128 == n / 2 / 2 / 2 / 16 && n / 4096 == n / 128 / 2 / 16
  {
  }

  /** `entry |= PAGE_PRESENT`, `|= PAGE_WRITE`, `|= PAGE_USER`. */
  lemma OrOperations(e: Pte)
    requires e.rest < 256
    ensures OrBit(Encode(e), 1) == Encode(e.(present := true))
    ensures OrBit(Encode(e), 2) == Encode(e.(write := true))
    ensures OrBit(Encode(e), 4) == Encode(e.(user := true))
  {
    LowBits(e);
    LowBits(e.(present := true));
    LowBits(e.(write := true));
    LowBits(e.(user := true));
  }

  /** The word of an entry as its three low bits and the rest. */
  lemma LowBits(e: Pte)
    requires e.rest < 256
    ensures var n := Encode(e);
            && n == B(e.present) + 2 * B(e.write) + 4 * B(e.user) + 8 * Upper(e)
            && n % 2 == B(e.present) && n / 2 % 2 == B(e.write) && n / 4 % 2 == B(e.user)
  {
    var n := Encode(e);
    RoundTrip(e);
    assert n / 4 == n / 2 / 2;
  }

  /** `flags & ~(1 << 7)`. */
  lemma ClearBit7(e: Pte)
    requires e.rest < 256
    ensures WithoutBit7(Encode(e)) == Encode(e.(huge := false))
  {
    Shifts(Encode(e));
    RoundTrip(e);
    assert Upper(e) == Upper(e.(huge := false)) + 16 * B(e.huge);
  }

  /** `entry & ~0xFFF` is the frame's address, `entry & ~0x1FFFFF` the 2 MiB page's. */
  lemma AddressMasks(e: Pte)
    requires e.rest < 256
    ensures Encode(e) - Encode(e) % 4096 == e.frame * 4096
    ensures Encode(e) - Encode(e) % 0x20_0000 == (e.frame - e.frame % 512) * 4096
  {
    var n := Encode(e);
    Shifts(n);
    RoundTrip(e);
    assert n / 4096 == e.frame;
    assert n / 0x20_0000 == e.frame / 512;
  }
}
