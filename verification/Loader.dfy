/**
The partial-reconfiguration load protocol: `fpga_mgr_buf_load` with the operations of the Altera PR IP
core.  The device answers every register read as it likes; all register accesses go into a log.
*/
module Loader {
  import opened Words
  import opened Errno

  const DATA := 0x00
  const CSR := 0x04
  const VER := 0x08
  const POF_ID := 0x0c

  const VER_POF_ID: u32 := 0xaa50_0003
  const RBF_ID_OFST := 284

  datatype Event = Read(reg: int, val: u32) | Write(reg: int, val: u32)

  /** The memory-mapped registers.  `answer(n, reg)` is what the `n`-th read returns if it is of `reg`. */
  class Device {
    const answer: (nat, int) -> u32
    var served: nat
    ghost var log: seq<Event>

    constructor (answer: (nat, int) -> u32)
      ensures served == 0 && log == [] && this.answer == answer
    {
      this.answer, served, log := answer, 0, [];
    }

    /** `readl`. */
    method ReadReg(reg: int) returns (v: u32)
      modifies this
      ensures v == answer(old(served), reg) && served == old(served) + 1 && log == old(log) + [Read(reg, v)]
    {
      v := answer(served, reg);
      served := served + 1;
      log := log + [Read(reg, v)];
    }

    /** `writel`. */
    method WriteReg(reg: int, v: u32)
      modifies this
      ensures served == old(served) && log == old(log) + [Write(reg, v)]
    {
      log := log + [Write(reg, v)];
    }
  }

  /** The START bit, bit 0 of the control register. */
  predicate Started(v: u32) {
    v % 2 == 1
  }

  /** `val | ALT_PR_CSR_PR_START`. */
  function WithStart(v: u32): (r: u32)
    ensures Started(r) && r / 2 == v / 2
  {
    v - v % 2 + 1
  }

  /** The status field, bits 2 to 4. */
  function Status(v: u32): int {
    v / 4 % 8
  }

  datatype State =
    | Unknown | Reset | WriteInit | WriteInitErr | Writing | WriteErr | WriteComplete | WriteCompleteErr | Operating

  /** The decoding of `alt_pr_fpga_state`. */
  function StateOf(v: u32): State {
    match Status(v)
    case 0 => Reset
    case 1 => WriteErr
    case 2 => WriteErr
    case 3 => WriteErr
    case 4 => Writing
    case 5 => Operating
    case _ => Unknown
  }

  lemma Quotient(q: nat, d: nat, r: nat)
    requires r < d && (d == 4 || d == 8)
    ensures (d * q + r) / d == q && (d * q + r) % d == r
  {
  }

  /** The field of a word put together from the bits above it, the field and the two bits below. */
  lemma StatusCell(h: nat, k: nat, l: nat)
    requires k < 8 && l < 4 && 32 * h + 4 * k + l < 0x1_0000_0000
    ensures Status(32 * h + 4 * k + l) == k
    ensures StateOf(32 * h + 4 * k + l) == Operating <==> k == 5
    ensures StateOf(32 * h + 4 * k + l) == WriteErr <==> 1 <= k <= 3
    ensures StateOf(32 * h + 4 * k + l) == Writing <==> k == 4
    ensures StateOf(32 * h + 4 * k + l) == Reset <==> k == 0
  {
    Quotient(8 * h + k, 4, l);
    Quotient(h, 8, k);
    assert 32 * h + 4 * k + l == 4 * (8 * h + k) + l;
  }

  lemma FieldOf(v: u32)
    ensures Status(v) == v % 32 / 4 && 0 <= Status(v) < 8
  {
    var h, r := v / 32, v % 32;
    var k, l := r / 4, r % 4;
    assert v == 32 * h + r && r == 4 * k + l;
    StatusCell(h, k, l);
  }

  /** `alt_pr_fpga_state`. */
  method AltPrFpgaState(dev: Device) returns (s: State, ghost v: u32)
    modifies dev
    ensures v == dev.answer(old(dev.served), 0x04) && s == StateOf(v)
    ensures s == Operating <==> v % 32 / 4 == 5
    ensures s == WriteErr <==> 1 <= v % 32 / 4 <= 3
    ensures s == Writing <==> v % 32 / 4 == 4
    ensures s == Reset <==> v % 32 / 4 == 0
    ensures dev.served == old(dev.served) + 1 && dev.log == old(dev.log) + [Read(CSR, v)]
  {
    var val := dev.ReadReg(CSR);
    FieldOf(val);
    return StateOf(val), val;
  }

  /** A little-endian load. */
  function LoadLE(buf: seq<byte>, i: int): u32
    requires 0 <= i && i + 4 <= |buf|
  {
    Value(buf[i + 3], buf[i + 2], buf[i + 1], buf[i])
  }

  /** What `alt_pr_fpga_write_init` returns, in terms of the answers from the `n`-th read on. */
  function InitResult(answer: (nat, int) -> u32, n: nat, partial: bool, buf: seq<byte>, count: nat): (r: int)
    requires count >= RBF_ID_OFST ==> |buf| >= RBF_ID_OFST + 4
    ensures r == 0 || r == EINVAL
  {
    if !partial || Started(answer(n, CSR)) then EINVAL
    else if answer(n + 1, VER) != VER_POF_ID then 0
    else if count < RBF_ID_OFST then EINVAL
    else if answer(n + 2, POF_ID) != 0 && answer(n + 2, POF_ID) != LoadLE(buf, RBF_ID_OFST) then EINVAL
    else 0
  }

  ghost predicate NoWrites(es: seq<Event>) {
    forall i :: 0 <= i < |es| ==> es[i].Read?
  }

  /**
  The accesses of a successful initialisation: START seen clear, the version read, the POF ID too for a
  core that has one, and one write, of START.  The word written is what was read last, with START: the
  version or the POF ID, not the control register.
  */
  ghost predicate Initialised(es: seq<Event>) {
    && |es| >= 3 && es[0].Read? && es[0].reg == CSR && !Started(es[0].val)
    && es[1].Read? && es[1].reg == VER && |es| == (if es[1].val == VER_POF_ID then 4 else 3)
    && (|es| == 4 ==> es[2].Read? && es[2].reg == POF_ID)
    && NoWrites(es[..|es| - 1])
    && es[|es| - 1] == Write(CSR, WithStart(es[|es| - 2].val))
  }

  /** So the write keeps the other bits of the control register only if the version or POF ID happens to have them. */
  lemma StartKeeps(es: seq<Event>)
    requires Initialised(es)
    ensures Started(es[|es| - 1].val)
    ensures es[|es| - 1].val == WithStart(es[0].val) <==> es[|es| - 2].val / 2 == es[0].val / 2
  {
    StartOnly(es[|es| - 2].val, es[0].val);
  }

  lemma StartOnly(v: u32, w: u32)
    ensures WithStart(v) == WithStart(w) <==> v / 2 == w / 2
  {
    assert v == v / 2 * 2 + v % 2 && w == w / 2 * 2 + w % 2;
  }

  /** `alt_pr_fpga_write_init`. */
  method AltPrFpgaWriteInit(dev: Device, partial: bool, buf: seq<byte>, count: nat)
    returns (err: int, ghost es: seq<Event>)
    requires count >= RBF_ID_OFST ==> |buf| >= RBF_ID_OFST + 4
    modifies dev
    ensures err == InitResult(dev.answer, old(dev.served), partial, buf, count)
    ensures dev.log == old(dev.log) + es && dev.served >= old(dev.served)
    ensures if err == 0 then Initialised(es) else NoWrites(es)
    ensures err == 0 ==> partial && es[0] == Read(0x04, es[0].val) && es[0].val % 2 == 0 && es[1].reg == 0x08
    ensures err == 0 ==> es[|es| - 1].reg == 0x04 && es[|es| - 1].val % 2 == 1
    ensures err == 0 && es[1].val == 0xaa50_0003 ==>
              && count >= 284
              && (|| es[2].val == 0
                  || es[2].val == (buf[284] as int) + 0x100 * (buf[285] as int) + 0x1_0000 * (buf[286] as int)
                                  + 0x100_0000 * (buf[287] as int))
    ensures err != 0 ==>
              || !partial
              || (|es| == 1 && es[0].reg == 0x04 && es[0].val % 2 == 1)
              || (|es| == 2 && es[1] == Read(0x08, 0xaa50_0003) && count < 284)
              || (|es| == 3 && es[1] == Read(0x08, 0xaa50_0003) && count >= 284
                  && es[2].reg == 0x0c && es[2].val != 0
                  && es[2].val != (buf[284] as int) + 0x100 * (buf[285] as int) + 0x1_0000 * (buf[286] as int)
                                  + 0x100_0000 * (buf[287] as int))
  {
    es := [];
    if !partial {
      return EINVAL, es;
    }
    var val := dev.ReadReg(CSR);
    es := es + [Read(CSR, val)];
    if Started(val) {
      return EINVAL, es;
    }
    val := dev.ReadReg(VER);
    es := es + [Read(VER, val)];
    if val == VER_POF_ID {
      if count < RBF_ID_OFST {
        return EINVAL, es;
      }
      val := dev.ReadReg(POF_ID);
      es := es + [Read(POF_ID, val)];
      if val != 0 && val != LoadLE(buf, RBF_ID_OFST) {
        return EINVAL, es;
      }
    }
    dev.WriteReg(CSR, WithStart(val));
    ghost var before := es;
    es := es + [Write(CSR, WithStart(val))];
    assert es[..|es| - 1] == before;
    return 0, es;
  }

  /** The `j`-th byte, least significant first. */
  function ByteOf(w: u32, j: int): byte
    requires 0 <= j < 4
  {
    Digit(w, 3 - j)
  }

  /** The words are the first `count` bytes of `buf` in little-endian order, padded with zeros to a whole word. */
  ghost predicate Packs(ws: seq<u32>, buf: seq<byte>, count: nat) {
    && count <= |buf| && 4 * |ws| >= count && 4 * |ws| < count + 4
    && forall k :: 0 <= k < |ws| ==> PacksWord(ws[k], buf, count, k)
  }

  ghost predicate PacksWord(w: u32, buf: seq<byte>, count: nat, k: nat)
    requires count <= |buf|
  {
    forall j :: 0 <= j < 4 ==> ByteOf(w, j) == if 4 * k + j < count then buf[4 * k + j] else 0
  }

  /** An image has one packing only. */
  lemma PacksOnce(ws: seq<u32>, vs: seq<u32>, buf: seq<byte>, count: nat)
    requires Packs(ws, buf, count) && Packs(vs, buf, count)
    ensures ws == vs
  {
    hide Digit;
    forall k | 0 <= k < |ws| ensures ws[k] == vs[k] {
      assert PacksWord(ws[k], buf, count, k) && PacksWord(vs[k], buf, count, k);
      assert ByteOf(ws[k], 0) == ByteOf(vs[k], 0) && ByteOf(ws[k], 1) == ByteOf(vs[k], 1);
      assert ByteOf(ws[k], 2) == ByteOf(vs[k], 2) && ByteOf(ws[k], 3) == ByteOf(vs[k], 3);
      DigitsValue(ws[k]);
      DigitsValue(vs[k]);
    }
  }

  /** `w & mask` for the mask that keeps the `n` low bytes. */
  function LowBytes(w: u32, n: int): u32
    requires 0 <= n < 4
  {
    if n == 3 then w % 0x100_0000 else if n == 2 then w % 0x1_0000 else if n == 1 then w % 0x100 else 0
  }

  lemma LowBytesIs(w: u32, n: int, j: int)
    requires 0 <= n < 4 && 0 <= j < 4
    ensures ByteOf(LowBytes(w, n), j) == if j < n then ByteOf(w, j) else 0
  {
    var a, b, c, d := Digit(w, 0), Digit(w, 1), Digit(w, 2), Digit(w, 3);
    DigitsValue(w);
    var v := if n == 3 then Value(0, b, c, d) else if n == 2 then Value(0, 0, c, d)
             else if n == 1 then Value(0, 0, 0, d) else 0;
    assert LowBytes(w, n) == v by { LowBytesValue(w, n, a, b, c, d); }
    if n == 3 { ValueDigits(0, b, c, d); }
    if n == 2 { ValueDigits(0, 0, c, d); }
    if n == 1 { ValueDigits(0, 0, 0, d); }
  }

  lemma LowBytesValue(w: u32, n: int, a: byte, b: byte, c: byte, d: byte)
    requires 0 <= n < 4 && w == Value(a, b, c, d)
    ensures LowBytes(w, n) == if n == 3 then Value(0, b, c, d) else if n == 2 then Value(0, 0, c, d)
                              else if n == 1 then Value(0, 0, 0, d) else 0
  {
    if n == 3 {
      Remainder3(a, Value(0, b, c, d));
    } else if n == 2 {
      Remainder2((a as int) * 0x100 + b, Value(0, 0, c, d));
    } else if n == 1 {
      Remainder1((a as int) * 0x1_0000 + (b as int) * 0x100 + c, Value(0, 0, 0, d));
    }
  }

  lemma Remainder3(q: int, r: int)
    requires 0 <= r < 0x100_0000
    ensures (q * 0x100_0000 + r) % 0x100_0000 == r
  {
  }

  lemma Remainder2(q: int, r: int)
    requires 0 <= r < 0x1_0000
    ensures (q * 0x1_0000 + r) % 0x1_0000 == r
  {
  }

  lemma Remainder1(q: int, r: int)
    requires 0 <= r < 0x100
    ensures (q * 0x100 + r) % 0x100 == r
  {
  }

  lemma WholeWord(buf: seq<byte>, count: nat, k: nat)
    requires count <= |buf| && 4 * k + 4 <= count
    ensures PacksWord(LoadLE(buf, 4 * k), buf, count, k)
  {
    hide Digit, Value;
    var i := 4 * k;
    ValueDigits(buf[i + 3], buf[i + 2], buf[i + 1], buf[i]);
  }

  /** The masked word at the end, whatever the bytes behind the image are. */
  lemma TailWord(buf: seq<byte>, tail: seq<byte>, count: nat, k: nat, n: int)
    requires 0 < n < 4 && count == 4 * k + n && count <= |buf| && |tail| == 4
    requires forall j :: 0 <= j < n ==> tail[j] == buf[4 * k + j]
    ensures PacksWord(LowBytes(LoadLE(tail, 0), n), buf, count, k)
  {
    hide Digit, Value, LowBytes;
    var w := LoadLE(tail, 0);
    ValueDigits(tail[3], tail[2], tail[1], tail[0]);
    forall j | 0 <= j < 4 ensures ByteOf(LowBytes(w, n), j) == if 4 * k + j < count then buf[4 * k + j] else 0 {
      LowBytesIs(w, n, j);
    }
  }

  ghost function DataWrites(ws: seq<u32>): (es: seq<Event>)
    ensures |es| == |ws|
  {
    seq(|ws|, i requires 0 <= i < |ws| => Write(DATA, ws[i]))
  }

  lemma OneMore(ws: seq<u32>, w: u32)
    ensures DataWrites(ws + [w]) == DataWrites(ws) + [Write(DATA, w)]
  {
  }

  /** One data word on the bus. */
  method PutWord(dev: Device, w: u32, ghost log0: seq<Event>, ghost ws: seq<u32>)
    requires dev.log == log0 + DataWrites(ws)
    modifies dev
    ensures dev.log == log0 + DataWrites(ws + [w]) && dev.served == old(dev.served)
  {
    hide DataWrites;
    dev.WriteReg(DATA, w);
    OneMore(ws, w);
    assert log0 + DataWrites(ws) + [Write(DATA, w)] == log0 + (DataWrites(ws) + [Write(DATA, w)]);
  }

  /** As numbers: each whole word has its first byte lowest. */
  lemma PacksNumbers(ws: seq<u32>, buf: seq<byte>, count: nat, k: nat)
    requires Packs(ws, buf, count) && 4 * k + 4 <= count
    ensures ws[k] == (buf[4 * k] as int) + 0x100 * (buf[4 * k + 1] as int) + 0x1_0000 * (buf[4 * k + 2] as int)
                     + 0x100_0000 * (buf[4 * k + 3] as int)
  {
    hide Digit;
    var w := ws[k];
    assert PacksWord(w, buf, count, k);
    assert ByteOf(w, 0) == buf[4 * k] && ByteOf(w, 1) == buf[4 * k + 1];
    assert ByteOf(w, 2) == buf[4 * k + 2] && ByteOf(w, 3) == buf[4 * k + 3];
    DigitsValue(w);
  }

  /** `alt_pr_fpga_write`.  The bytes behind the image, up to a whole word, are readable and free. */
  method AltPrFpgaWrite(dev: Device, buf: seq<byte>, count: nat) returns (err: int, ghost ws: seq<u32>, ghost v: u32)
    requires count <= |buf| && (count + 3) / 4 * 4 <= |buf|
    modifies dev
    ensures count == 0 ==> err == EINVAL && dev.log == old(dev.log) && dev.served == old(dev.served)
    ensures count > 0 ==>
              && Packs(ws, buf, count) && dev.log == old(dev.log) + DataWrites(ws) + [Read(CSR, v)]
              && dev.served == old(dev.served) + 1 && v == dev.answer(old(dev.served), CSR)
              && err == if 1 <= v % 32 / 4 <= 3 then EIO else 0
    ensures count > 0 ==> forall k :: 0 <= k < |ws| ==> dev.log[|old(dev.log)| + k] == Write(0x00, ws[k])
  {
    hide LowBytes, Digit, Value, StateOf, PacksWord;
    ws, v := [], 0;
    if count <= 0 {
      return EINVAL, ws, v;
    }
    var left, i := count, 0;
    while left >= 4
      invariant 0 <= left && left + 4 * i == count && |ws| == i
      invariant dev.log == old(dev.log) + DataWrites(ws) && dev.served == old(dev.served)
      invariant forall k :: 0 <= k < i ==> PacksWord(ws[k], buf, count, k)
    {
      WholeWord(buf, count, i);
      PutWord(dev, LoadLE(buf, 4 * i), old(dev.log), ws);
      ws := ws + [LoadLE(buf, 4 * i)];
      i := i + 1;
      left := left - 4;
    }
    if left > 0 {
      TailWord(buf, buf[4 * i..4 * i + 4], count, i, left);
      var w := LowBytes(LoadLE(buf, 4 * i), left);
      PutWord(dev, w, old(dev.log), ws);
      ws := ws + [w];
    }
    var s;
    s, v := AltPrFpgaState(dev);
    if s == WriteErr {
      return EIO, ws, v;
    }
    return 0, ws, v;
  }

  /** What polling returns with `budget` polls left. */
  function CompleteResult(answer: (nat, int) -> u32, n: nat, budget: nat): (r: int)
    ensures r == 0 || r == EIO || r == ETIMEDOUT
    decreases budget
  {
    if budget == 0 then ETIMEDOUT
    else if StateOf(answer(n, CSR)) == WriteErr then EIO
    else if StateOf(answer(n, CSR)) == Operating then 0
    else CompleteResult(answer, n + 1, budget - 1)
  }

  /** Neither error nor success. */
  ghost predicate Calm(v: u32) {
    !(1 <= v % 32 / 4 <= 3) && v % 32 / 4 != 5
  }

  /** Polls of the status: none before the last shows an error or success. */
  ghost predicate Polled(es: seq<Event>, budget: nat) {
    && |es| <= budget && (forall i :: 0 <= i < |es| ==> es[i].Read? && es[i].reg == CSR)
    && forall i :: 0 <= i < |es| - 1 ==> Calm(es[i].val)
  }

  lemma CalmIs(v: u32)
    ensures Calm(v) <==> StateOf(v) != WriteErr && StateOf(v) != Operating
    ensures Status(v) == v % 32 / 4
  {
    FieldOf(v);
  }

  /** `alt_pr_fpga_write_complete`. */
  method AltPrFpgaWriteComplete(dev: Device, timeout: nat) returns (err: int, ghost es: seq<Event>)
    modifies dev
    ensures err == CompleteResult(dev.answer, old(dev.served), timeout)
    ensures dev.log == old(dev.log) + es && Polled(es, timeout)
    ensures err == 0 ==> |es| > 0 && es[|es| - 1].val % 32 / 4 == 5
    ensures err == EIO ==> |es| > 0 && 1 <= es[|es| - 1].val % 32 / 4 <= 3
    ensures err == ETIMEDOUT ==> |es| == timeout
    ensures forall i :: 0 <= i < (if err == ETIMEDOUT then |es| else |es| - 1) ==>
              !(1 <= es[i].val % 32 / 4 <= 3) && es[i].val % 32 / 4 != 5
    ensures err == 0 || err == EIO || err == ETIMEDOUT
  {
    hide Status, StateOf;
    es := [];
    var i := 0;
    while i < timeout
      invariant 0 <= i <= timeout && |es| == i && dev.served == old(dev.served) + i && dev.log == old(dev.log) + es
      invariant forall k :: 0 <= k < i ==>
                  es[k].Read? && es[k].reg == CSR && Calm(es[k].val)
      invariant CompleteResult(dev.answer, old(dev.served), timeout)
                == CompleteResult(dev.answer, dev.served, timeout - i)
    {
      var s;
      ghost var v;
      s, v := AltPrFpgaState(dev);
      es := es + [Read(CSR, v)];
      CalmIs(v);
      if s == WriteErr {
        return EIO, es;
      } else if s == Operating {
        return 0, es;
      }
      i := i + 1;
    }
    return ETIMEDOUT, es;
  }

  class Manager {
    var state: State

    constructor ()
      ensures state == Unknown
    {
      state := Unknown;
    }
  }

  /** All accesses of a successful load. */
  ghost predicate Loaded(start: seq<Event>, ws: seq<u32>, v: u32, polls: seq<Event>, buf: seq<byte>, count: nat,
                         timeout: nat) {
    && Initialised(start) && count > 0 && Packs(ws, buf, count) && !(1 <= v % 32 / 4 <= 3)
    && (start[1].val == VER_POF_ID ==>
          |buf| >= 288 && count >= RBF_ID_OFST && (start[2].val == 0 || start[2].val == LoadLE(buf, RBF_ID_OFST)))
    && Polled(polls, timeout) && |polls| > 0 && polls[|polls| - 1].val % 32 / 4 == 5
  }

  /**
  `fpga_mgr_buf_load`.  It returns 0 only after START was seen clear and set, the image was written word by
  word and PR_SUCCESS was read within the poll budget; the state tells how far a failed load came, and
  WRITE_INIT_ERR means that no register was written.
  */
  method FpgaMgrBufLoad(mgr: Manager, dev: Device, partial: bool, timeout: nat, buf: seq<byte>, count: nat)
    returns (ret: int, ghost start: seq<Event>, ghost ws: seq<u32>, ghost v: u32, ghost polls: seq<Event>)
    requires count <= |buf| && (count + 3) / 4 * 4 <= |buf| && (count >= RBF_ID_OFST ==> |buf| >= RBF_ID_OFST + 4)
    modifies mgr, dev
    ensures ret == 0 <==> mgr.state == Operating
    ensures ret == 0 ==> Loaded(start, ws, v, polls, buf, count, timeout)
    ensures ret == 0 ==> |polls| > 0 && polls[|polls| - 1].val % 32 / 4 == 5 && !(1 <= v % 32 / 4 <= 3)
    ensures ret == 0 ==> partial && start[0].val % 2 == 0 && start[|start| - 1] == Write(0x04, start[|start| - 1].val)
    ensures ret == 0 && start[1].val == 0xaa50_0003 ==>
              && count >= 284
              && (|| start[2].val == 0
                  || start[2].val == (buf[284] as int) + 0x100 * (buf[285] as int) + 0x1_0000 * (buf[286] as int)
                                     + 0x100_0000 * (buf[287] as int))
    ensures ret == 0 ==> dev.log == old(dev.log) + start + (DataWrites(ws) + [Read(CSR, v)]) + polls
    ensures mgr.state == WriteInitErr <==> InitResult(dev.answer, old(dev.served), partial, buf, count) != 0
    ensures mgr.state == WriteInitErr ==> ret == EINVAL && dev.log == old(dev.log) + start && NoWrites(start)
    ensures mgr.state == WriteInitErr ==>
              || !partial
              || (|start| == 1 && start[0].reg == 0x04 && start[0].val % 2 == 1)
              || (|start| == 2 && start[1] == Read(0x08, 0xaa50_0003) && count < 284)
              || (|start| == 3 && start[1] == Read(0x08, 0xaa50_0003) && count >= 284
                  && start[2].reg == 0x0c && start[2].val != 0
                  && start[2].val != (buf[284] as int) + 0x100 * (buf[285] as int) + 0x1_0000 * (buf[286] as int)
                                     + 0x100_0000 * (buf[287] as int))
    ensures mgr.state == WriteErr ==>
              dev.log == old(dev.log) + start + (if count == 0 then [] else DataWrites(ws) + [Read(CSR, v)])
    ensures mgr.state == WriteErr <==> (Initialised(start) && (count == 0 || 1 <= v % 32 / 4 <= 3))
    ensures mgr.state == WriteCompleteErr ==>
              && Initialised(start) && Packs(ws, buf, count) && Polled(polls, timeout)
              && dev.log == old(dev.log) + start + (DataWrites(ws) + [Read(CSR, v)]) + polls
              && (ret == EIO || ret == ETIMEDOUT) && (ret == ETIMEDOUT ==> |polls| == timeout)
              && (ret == EIO ==> |polls| > 0 && 1 <= polls[|polls| - 1].val % 32 / 4 <= 3)
              && forall i :: 0 <= i < |polls| ==> polls[i].val % 32 / 4 != 5
    ensures mgr.state in {WriteInitErr, WriteErr, WriteCompleteErr, Operating}
  {
    hide InitResult, CompleteResult, StateOf, Packs, Initialised, NoWrites, Polled, DataWrites, Status;
    start, ws, v, polls := [], [], 0, [];
    ghost var log0 := dev.log;
    mgr.state := WriteInit;
    ret, start := AltPrFpgaWriteInit(dev, partial, buf, count);
    if ret != 0 {
      mgr.state := WriteInitErr;
      NeverBoth(start);
      return;
    }
    mgr.state := Writing;
    ret, ws, v := AltPrFpgaWrite(dev, buf, count);
    ghost var mid := if count == 0 then [] else DataWrites(ws) + [Read(CSR, v)];
    assert dev.log == log0 + start + mid;
    if ret != 0 {
      mgr.state := WriteErr;
      return;
    }
    mgr.state := WriteComplete;
    ret, polls := AltPrFpgaWriteComplete(dev, timeout);
    if ret != 0 {
      mgr.state := WriteCompleteErr;
      return;
    }
    mgr.state := Operating;
    return 0, start, ws, v, polls;
  }

  lemma NeverBoth(es: seq<Event>)
    ensures !(NoWrites(es) && Initialised(es))
  {
  }

  /** `kernel_read` of four bytes: short only at the end of the file; what is not read stays in the buffer. */
  method KernelRead(file: seq<byte>, offset: int, buf: array<byte>) returns (ret: int)
    requires 0 <= offset <= |file| && buf.Length == 4
    modifies buf
    ensures ret == if |file| - offset >= 4 then 4 else |file| - offset
    ensures forall j :: 0 <= j < 4 ==> buf[j] == if j < ret then file[offset + j] else old(buf[j])
  {
    ret := if |file| - offset >= 4 then 4 else |file| - offset;
    for k := 0 to ret
      invariant forall j :: 0 <= j < 4 ==> buf[j] == if j < k then file[offset + j] else old(buf[j])
    {
      buf[k] := file[offset + k];
    }
  }

  /** The first word that the streaming writer emits: the file's bytes over what the stack held. */
  function FirstWord(file: seq<byte>, stale: seq<byte>): seq<byte>
    requires |stale| == 4
  {
    if |file| >= 4 then file[..4] else file + stale[|file|..]
  }

  /** The words are the file's packing unless the file is shorter than a word and the rest of the word is not zero. */
  ghost predicate Clean(file: seq<byte>, stale: seq<byte>)
    requires |stale| == 4
  {
    |file| >= 4 || (|file| > 0 && forall j :: |file| <= j < 4 ==> stale[j] == 0)
  }

  /**
  `alt_pr_ip_fpga_write`, which streams the image from a file through four bytes of stack.  The loop writes
  its first word before it has looked at how much was read: a file of fewer than four bytes comes out with
  stack bytes behind it, and an empty one as a word of stack.
  */
  method AltPrIpFpgaWrite(dev: Device, file: seq<byte>, stale: seq<byte>)
    returns (err: int, ghost ws: seq<u32>, ghost v: u32)
    requires |stale| == 4
    modifies dev
    ensures Packs(ws, file, |file|) <==> Clean(file, stale)
    ensures |file| < 4 ==> ws == [LoadLE(FirstWord(file, stale), 0)]
    ensures dev.log == old(dev.log) + DataWrites(ws) + [Read(CSR, v)]
    ensures v == dev.answer(old(dev.served), CSR) && err == if 1 <= v % 32 / 4 <= 3 then EIO else 0
  {
    hide LowBytes, Digit, Value, StateOf, PacksWord, LoadLE, Packs, DataWrites, Streamed, FirstWord;
    var buf := new byte[4](i requires 0 <= i < 4 => stale[i]);
    assert buf[..] == stale;
    ghost var offset;
    var ret;
    ret, ws, offset := StreamWords(dev, file, buf, stale);
    StreamEnd(file, stale, ws, offset, ret, buf[..]);
    if ret > 0 {
      var w := LowBytes(LoadLE(buf[..], 0), ret);
      PutWord(dev, w, old(dev.log), ws);
      ws := ws + [w];
    }
    var s;
    s, v := AltPrFpgaState(dev);
    if s == WriteErr {
      return EIO, ws, v;
    }
    return 0, ws, v;
  }

  /** The do-while loop: it emits whole words, and the first one in any case. */
  method StreamWords(dev: Device, file: seq<byte>, buf: array<byte>, ghost stale: seq<byte>)
    returns (ret: int, ghost ws: seq<u32>, ghost at: int)
    requires buf.Length == 4 && buf[..] == stale
    modifies dev, buf
    ensures Streamed(file, stale, ws, at) && ws != [] && 0 <= ret == |file| - at < 4
    ensures forall j :: 0 <= j < ret ==> buf[j] == file[at + j]
    ensures dev.log == old(dev.log) + DataWrites(ws) && dev.served == old(dev.served)
  {
    hide LoadLE, DataWrites, Streamed;
    ws := [];
    var offset := 0;
    ret := KernelRead(file, offset, buf);
    assert buf[..] == FirstWord(file, stale);
    StreamStart(file, stale);
    assert old(dev.log) + [] == old(dev.log);
    while true
      invariant Streamed(file, stale, ws, offset) && 0 <= offset
                && (ret == 4 || (ws == [] && offset == 0 && ret == |file| < 4))
      invariant ws == [] && ret < 4 ==> buf[..] == FirstWord(file, stale)
      invariant ret == 4 ==> offset + 4 <= |file| && buf[..] == file[offset..offset + 4]
      invariant dev.log == old(dev.log) + DataWrites(ws) && dev.served == old(dev.served)
      decreases |file| - offset + 4
    {
      StreamNext(file, stale, ws, offset, ret, buf[..]);
      offset := offset + ret;
      var w := LoadLE(buf[..], 0);
      PutWord(dev, w, old(dev.log), ws);
      ws := ws + [w];
      ret := KernelRead(file, offset, buf);
      if !(ret >= 4) {
        break;
      }
      assert buf[..] == file[offset..offset + 4];
    }
    at := offset;
  }

  /** The words written so far, when the file has been read up to `offset`. */
  ghost predicate Streamed(file: seq<byte>, stale: seq<byte>, ws: seq<u32>, offset: int)
    requires |stale| == 4
  {
    && 0 <= offset <= |file|
    && (|file| >= 4 || ws == [] ==>
          4 * |ws| == offset && forall k :: 0 <= k < |ws| ==> PacksWord(ws[k], file, |file|, k))
    && (|file| < 4 && ws != [] ==> offset == |file| && ws == [LoadLE(FirstWord(file, stale), 0)])
  }

  lemma StreamStart(file: seq<byte>, stale: seq<byte>)
    requires |stale| == 4
    ensures Streamed(file, stale, [], 0) && DataWrites([]) == []
  {
  }

  lemma StreamNext(file: seq<byte>, stale: seq<byte>, ws: seq<u32>, offset: int, ret: int, word: seq<byte>)
    requires |stale| == 4 && |word| == 4 && Streamed(file, stale, ws, offset)
    requires ret == 4 || (ws == [] && ret == |file| < 4 && word == FirstWord(file, stale))
    requires ret == 4 ==> offset + 4 <= |file| && word == file[offset..offset + 4]
    ensures Streamed(file, stale, ws + [LoadLE(word, 0)], offset + ret)
  {
    hide PacksWord, Value;
    if ret == 4 {
      assert LoadLE(word, 0) == LoadLE(file, 4 * |ws|);
      WholeWord(file, |file|, |ws|);
    }
  }

  /** What the end of the loop leaves to write, and whether the whole is the packing. */
  lemma StreamEnd(file: seq<byte>, stale: seq<byte>, ws: seq<u32>, offset: int, ret: int, word: seq<byte>)
    requires |stale| == 4 && |word| == 4 && Streamed(file, stale, ws, offset) && ws != []
    requires ret == |file| - offset < 4 && forall j :: 0 <= j < ret ==> word[j] == file[offset + j]
    ensures |file| < 4 ==> ret == 0 && ws == [LoadLE(FirstWord(file, stale), 0)]
    ensures ret == 0 ==> (Packs(ws, file, |file|) <==> Clean(file, stale))
    ensures ret > 0 ==> |file| >= 4 && Packs(ws + [LowBytes(LoadLE(word, 0), ret)], file, |file|)
  {
    hide PacksWord, Value, LowBytes, Digit;
    if |file| < 4 {
      ShortFile(file, stale, ws);
    } else if ret > 0 {
      TailWord(file, word, |file|, |ws|, ret);
    }
  }

  lemma ShortFile(file: seq<byte>, stale: seq<byte>, ws: seq<u32>)
    requires |stale| == 4 && |file| < 4 && ws == [LoadLE(FirstWord(file, stale), 0)]
    ensures Packs(ws, file, |file|) <==> Clean(file, stale)
  {
    hide Digit, Value;
    var x := FirstWord(file, stale);
    ValueDigits(x[3], x[2], x[1], x[0]);
    assert forall j :: 0 <= j < 4 ==> ByteOf(ws[0], j) == x[j];
    if Packs(ws, file, |file|) {
      assert PacksWord(ws[0], file, |file|, 0);
      forall j | |file| <= j < 4 ensures stale[j] == 0 { assert ByteOf(ws[0], j) == 0; }
    }
  }

  /** The buffered and the streaming writer put the same words on the bus exactly when the first word is clean. */
  method BothWriters(dev: Device, other: Device, buf: seq<byte>, count: nat, stale: seq<byte>)
    returns (err: int, err2: int, ghost ws: seq<u32>, ghost vs: seq<u32>, ghost v: u32, ghost w: u32)
    requires dev != other && 0 < count <= |buf| && (count + 3) / 4 * 4 <= |buf| && |stale| == 4
    modifies dev, other
    ensures Packs(ws, buf, count) && (ws == vs <==> Clean(buf[..count], stale))
    ensures dev.log == old(dev.log) + DataWrites(ws) + [Read(CSR, v)]
    ensures other.log == old(other.log) + DataWrites(vs) + [Read(CSR, w)]
  {
    hide Packs, DataWrites, Clean;
    err, ws, v := AltPrFpgaWrite(dev, buf, count);
    err2, vs, w := AltPrIpFpgaWrite(other, buf[..count], stale);
    if Packs(vs, buf[..count], count) || ws == vs {
      SameImage(ws, vs, buf, count);
    }
  }

  lemma SameImage(ws: seq<u32>, vs: seq<u32>, buf: seq<byte>, count: nat)
    requires count <= |buf| && Packs(ws, buf, count)
    ensures Packs(vs, buf[..count], count) <==> ws == vs
  {
    hide ByteOf;
    if Packs(vs, buf[..count], count) {
      forall k | 0 <= k < |vs| ensures PacksWord(vs[k], buf, count, k) {
        assert PacksWord(vs[k], buf[..count], count, k);
      }
      PacksOnce(ws, vs, buf, count);
    }
    if ws == vs {
      forall k | 0 <= k < |ws| ensures PacksWord(ws[k], buf[..count], count, k) {
        assert PacksWord(ws[k], buf, count, k);
      }
    }
  }
}
