/** Records with any tags in any order: what parse_tag takes from them, and where it stops. */
module BootRecordTags {
  import opened CString
  import opened Words
  import opened BitFields
  import opened BootRecord
  import opened BootRecordStore

  /** A tag and what stands behind its word. */
  datatype Entry = Address(addr: u32) | Arguments(data: seq<byte>) | Other(name: byte, data: seq<byte>) {
    function Name(): byte {
      match this
      case Address(_) => 2
      case Arguments(_) => 3
      case Other(name, _) => name
    }

    /** Number of words behind the tag. */
    function Size(): nat {
      match this
      case Address(_) => 1
      case Arguments(data) => |data| / 4
      case Other(_, data) => |data| / 4
    }

    /** Whole words, as many as the tag may have. */
    predicate Legal() {
      match this
      case Address(_) => true
      case Arguments(data) => |data| % 4 == 0 && |data| <= 516
      case Other(name, data) => name !in {1, 2, 3} && |data| % 4 == 0 && |data| < 0x3_FFFC
    }

    predicate StandsBehind(b: seq<byte>, p: nat)
      requires p + 4 * Size() <= |b|
    {
      match this
      case Address(addr) => Word(b, p) == addr
      case Arguments(data) => b[p..p + 4 * Size()] == data
      case Other(_, data) => b[p..p + 4 * Size()] == data
    }

    /** What the tag does to address and arguments; of arguments only those count that fit the buffer. */
    function Apply(boot: Boot): Boot {
      match this
      case Address(addr) => Boot(addr, boot.args)
      case Arguments(data) =>
        Boot(boot.addr,
             seq(|boot.args|, i requires 0 <= i < |boot.args| => if i < |data| then data[i] else boot.args[i]))
      case Other(_, _) => boot
    }
  }

  /** The word of a tag: its number, its name and the count of its words, itself included. */
  predicate IsTag(w: u32, number: nat, name: byte, count: nat) {
    w / 0x100_0000 == number && w / 0x1_0000 % 0x100 == name && w % 0x1_0000 == count
  }

  /** The tags stand one behind the other from word p on, numbered, with a stop tag behind the last one. */
  predicate Written(b: seq<byte>, p: nat, number: nat, es: seq<Entry>)
    decreases |es|
  {
    && 4 * p + 4 <= |b|
    && if es == [] then IsTag(Word(b, 4 * p), number, 1, 1)
       else
         var e := es[0];
         && 4 * (p + 1 + e.Size()) <= |b| && e.Legal()
         && IsTag(Word(b, 4 * p), number, e.Name(), e.Size() + 1) && e.StandsBehind(b, 4 * p + 4)
         && Written(b, p + 1 + e.Size(), number + 1, es[1..])
  }

  function Applied(es: seq<Entry>, boot: Boot): Boot {
    if es == [] then boot else Applied(es[1..], es[0].Apply(boot))
  }

  lemma EntryIsRead(b: seq<byte>, p: nat, number: nat, e: Entry, boot: Boot)
    requires 4 * (p + 1 + e.Size()) <= |b| && e.Legal()
    requires IsTag(Word(b, 4 * p), number, e.Name(), e.Size() + 1) && e.StandsBehind(b, 4 * p + 4)
    ensures ReadTag(b, p, number, boot) == Tag(p + 1 + e.Size(), e.Apply(boot))
  {
    hide Word;
    if e.Arguments? {
      assert CopyTo(boot.args, e.data) == e.Apply(boot).args;
    }
  }

  lemma StopIsRead(b: seq<byte>, p: nat, number: nat, boot: Boot)
    requires 4 * p + 4 <= |b| && IsTag(Word(b, 4 * p), number, 1, 1)
    ensures ReadTag(b, p, number, boot) == End
  {
    hide Word;
  }

  /** Every tag is taken, up to the stop tag; later ones of the same name replace earlier ones. */
  lemma {:induction false} TagsAreTaken(b: seq<byte>, p: nat, number: nat, es: seq<Entry>, boot: Boot)
    requires number + |es| < 256 && Written(b, p, number, es)
    ensures Tags(b, p, number, boot) == Applied(es, boot)
    decreases |es|
  {
    hide Word, ReadTag;
    if es == [] {
      assert ReadTag(b, p, number, boot) == End by { StopIsRead(b, p, number, boot); }
    } else {
      EntryIsRead(b, p, number, es[0], boot);
      TagsAreTaken(b, p + 1 + es[0].Size(), number + 1, es[1..], es[0].Apply(boot));
    }
  }

  /** Reading ends at a tag with a wrong number or without a count, at an address of other than one word and at
      arguments of more than 129 words; what was read before stays. */
  lemma BadTagEnds(b: seq<byte>, p: nat, number: nat, boot: Boot, n: nat, name: byte, count: nat)
    requires number < 256 && 4 * p + 4 <= |b| && IsTag(Word(b, 4 * p), n, name, count)
    requires n != number || count == 0 || (name == 2 && count != 2) || (name == 3 && count > 130)
    ensures Tags(b, p, number, boot) == boot
  {
    hide Word;
  }

  // ---- the address of an image in flash

  /** Or with a number whose lower bits are zero leaves the lower bits alone. */
  lemma {:induction false} OrAbove(a: nat, c: nat, n: nat)
    ensures Or(a, Shl(c, n)) == Shl(Or(Shr(a, n), c), n) + Low(a, n)
    decreases n
  {
    hide Or;
    if n > 0 {
      OrBits(a, Shl(c, n));
      OrAbove(a / 2, c, n - 1);
    }
  }

  lemma TopByte(x: nat)
    requires x < 0x40
    ensures Or(x, 0xBF) == 0xBF
  {
    hide Or;
    OrBits(x, 0xBF);
    OrBits(x / 2, 0x5F);
    OrBits(x / 4, 0x2F);
    OrBits(x / 8, 0x17);
    OrBits(x / 16, 0xB);
    OrBits(x / 32, 5);
    OrZero(2);
  }

  lemma ShlNone(v: nat)
    ensures Shl(v, 0) == v
  {
  }

  lemma ThreeBytes(a: nat, v: nat)
    ensures Shr(a, 24) == a / 0x100_0000 && Shl(v, 24) == 0x100_0000 * v
  {
    hide Shr, Shl;
    ShrByte(a, 16);
    ShrByte(a / 0x100, 8);
    ShrByte(a / 0x1_0000, 0);
    ShrFew(a / 0x100_0000);
    ShlByte(v, 16);
    ShlByte(v, 8);
    ShlByte(v, 0);
    ShlNone(v);
  }

  /** An address below the flash size is or-ed with the base of flash. */
  lemma BasedIsOr(addr: u32)
    requires addr < 0x4000_0000
    ensures Based(addr) == Or(addr, 0xBF00_0000)
  {
    hide Or, Shr, Shl, Low;
    var upper := addr / 0x100_0000;
    ThreeBytes(addr, upper);
    ThreeBytes(addr, 0xBF);
    UpperAndLower(addr, 24);
    OrAbove(addr, 0xBF, 24);
    TopByte(upper);
  }
}
