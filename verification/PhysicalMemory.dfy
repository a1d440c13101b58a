/**
 Physical memory as an instruction sees it: installed RAM, and a window at the top of bank 0
 behind which the page tables answer instead. The two are separate stores.
 */
module PhysicalMemory {
  import opened Words

  // A 24-bit physical address: a 64K-word bank and a word in it.
  datatype Address = Address(bank: byte, offset: word)

  // The page tables are visible through the offsets of bank 0 from `window` up; where the
  // window starts depends on the addressing mode.
  datatype Store = Store(mem: map<Address, word>, shadow: map<word, word>, window: nat) {
    ghost predicate Valid() {
      forall o: word :: window <= o ==> o in shadow
    }

    predicate InWindow(a: Address) {
      a.bank == 0 && window <= a.offset
    }

    // Plain installed memory, outside the window.
    predicate Plain(a: Address) {
      a in mem && !InWindow(a)
    }

    // A word no one answers for reads as zero.
    function Read(a: Address): word
      requires Valid()
    {
      if InWindow(a) then shadow[a.offset] else if a in mem then mem[a] else 0
    }

    // Writing where no one answers changes nothing.
    function Write(a: Address, v: word): (s: Store)
      requires Valid()
      ensures s.Valid() && s.window == window
      ensures forall i {:trigger s.Plain(i)} :: s.Plain(i) <==> Plain(i)
      ensures forall i {:trigger s.Read(i)} :: s.Read(i) == if i == a && (InWindow(a) || Plain(a)) then v else Read(i)
    {
      if InWindow(a) then this.(shadow := shadow[a.offset := v])
      else if a in mem then this.(mem := mem[a := v])
      else this
    }
  }

  class PhysMem {
    var mem: map<Address, word>
    var shadow: map<word, word>
    const window: nat

    ghost function Contents(): Store
      reads this
    {
      Store(mem, shadow, window)
    }

    constructor (mem: map<Address, word>, shadow: map<word, word>, window: nat)
      ensures Contents() == Store(mem, shadow, window)
    {
      this.mem, this.shadow, this.window := mem, shadow, window;
    }

    method ReadWord(a: Address) returns (v: word)
      requires Contents().Valid()
      ensures v == Contents().Read(a)
    {
      if a.bank == 0 && window <= a.offset {
        return shadow[a.offset];
      }
      return if a in mem then mem[a] else 0;
    }

    method WriteWord(a: Address, v: word)
      requires Contents().Valid()
      modifies this
      ensures Contents() == old(Contents()).Write(a, v)
    {
      if a.bank == 0 && window <= a.offset {
        shadow := shadow[a.offset := v];
      } else if a in mem {
        mem := mem[a := v];
      }
    }
  }

  // A 16-bit sum of a word and a small displacement.
  function Wrap(offset: nat): word
    requires offset < 0x20000
  {
    if offset < 0x10000 then offset else offset - 0x10000
  }
}
