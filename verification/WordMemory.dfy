/** Memory as 8-byte words, and register files in it. */
module WordMemory {
  import opened Bits

  /** 31 general registers, in order. */
  type Regs = s: seq<U64> | |s| == 31 witness seq(31, _ => 0)

  function Load(mem: seq<U64>, addr: nat): U64 {
    if addr % 8 == 0 && addr / 8 < |mem| then mem[addr / 8] else 0
  }

  function Store(mem: seq<U64>, addr: nat, v: U64): (m: seq<U64>)
    ensures |m| == |mem|
  {
    if addr % 8 == 0 && addr / 8 < |mem| then mem[addr / 8 := v] else mem
  }

  /** `n` words at the 8-aligned address `addr`. */
  predicate Room(mem: seq<U64>, addr: nat, n: nat) {
    addr % 8 == 0 && addr / 8 + n <= |mem|
  }

  function Words(mem: seq<U64>, addr: nat, n: nat): (w: seq<U64>)
    requires Room(mem, addr, n)
    ensures |w| == n
  {
    mem[addr / 8..addr / 8 + n]
  }

  function Put(mem: seq<U64>, addr: nat, w: seq<U64>): (m: seq<U64>)
    requires Room(mem, addr, |w|)
    ensures |m| == |mem|
  {
    mem[..addr / 8] + w + mem[addr / 8 + |w|..]
  }

  lemma SameWords(m: seq<U64>, addr: nat, w: seq<U64>, at: nat, n: nat)
    requires Room(m, addr, |w|) && Room(m, at, n) && (addr + 8 * |w| <= at || at + 8 * n <= addr)
    ensures Words(Put(m, addr, w), at, n) == Words(m, at, n)
  {
  }

  lemma PutBack(m: seq<U64>, addr: nat, w: seq<U64>)
    requires Room(m, addr, |w|)
    ensures Words(Put(m, addr, w), addr, |w|) == w
  {
  }

  lemma PutAppend(mem: seq<U64>, addr: nat, w: seq<U64>, v: U64, w': seq<U64>)
    requires w' == w + [v] && Room(mem, addr, |w'|)
    ensures Put(mem, addr, w') == Put(mem, addr, w)[addr / 8 + |w| := v]
  {
  }

  lemma PutWords(m: seq<U64>, addr: nat, d: nat, lo: nat, w: seq<U64>)
    requires addr == 8 * (d + lo) && d + lo + |w| <= |m|
    ensures Room(m, addr, |w|)
    ensures forall k | 0 <= k < |m| ::
      Put(m, addr, w)[k] == (if d + lo <= k < d + lo + |w| then w[k - d - lo] else m[k])
  {
    assert addr / 8 == d + lo;
  }

  /** The first `k` registers from `w`, the others from `x`. */
  function Upto(w: Regs, x: Regs, k: nat): (z: Regs)
    requires k <= 31
    ensures forall i | 0 <= i < 31 :: z[i] == if i < k then w[i] else x[i]
  {
    w[..k] + x[k..]
  }

  lemma UptoEnds(w: Regs, x: Regs)
    ensures Upto(w, x, 0) == x && Upto(w, x, 31) == w
  {
  }

  lemma UptoNext(w: Regs, x: Regs, k: nat)
    requires 0 < k <= 31
    ensures Upto(w, x, k - 1)[k - 1 := w[k - 1]] == Upto(w, x, k)
  {
  }

  lemma SlotWord(mem: seq<U64>, addr: nat, k: nat)
    requires Room(mem, addr, 31) && 0 < k <= 31
    ensures Load(mem, addr + 8 * (k - 1)) == Words(mem, addr, 31)[k - 1]
  {
    assert (addr + 8 * (k - 1)) / 8 == addr / 8 + k - 1;
  }
}
