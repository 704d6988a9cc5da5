/** Byte-level memory (src/LLVM/Memory/FlatMemoryModel.cpp, `buildMemoryRead`, `buildMemoryWrite`,
    `pointerOffset`), by the values the built expressions have: values are stored little-endian, byte
    addresses wrap around at the pointer width. */
module FlatMemory {
  import opened BitVectors
  import opened Exprs

  /** One byte for each pointer of `width` bits. */
  datatype Memory = Memory(width: nat, bytes: seq<nat>) {
    ghost predicate Valid() {
      |bytes| == Pow2(width) && forall a | 0 <= a < |bytes| :: bytes[a] < Pow2(8)
    }

    predicate IsPointer(p: Value) { p.BvVal? && p.width == width && p.bits < |bytes| }

    function Load(p: Value): Value
      requires IsPointer(p)
    {
      BvVal(8, bytes[p.bits])
    }

    function Store(p: Value, byte: Value): Memory
      requires IsPointer(p) && byte.BvVal?
    {
      Memory(width, bytes[p.bits := byte.bits])
    }
  }

  /** Pointers wrap around; the offset is a literal of the pointer's own type. */
  function PointerOffset(p: Value, offset: nat): Value {
    EvalBinary(Arithmetic(Add), p, BvVal(p.Width(), Truncate(p.Width(), offset)))
  }

  /** The address of byte `i` of an access at `p`. */
  function Address(w: nat, p: nat, i: nat): (a: nat)
    ensures a < Pow2(w)
  {
    (p + i) % Pow2(w)
  }

  lemma {:induction false} OffsetAddress(p: Value, i: nat)
    requires p.BvVal?
    ensures PointerOffset(p, i) == BvVal(p.width, Address(p.width, p.bits, i))
  {
    var m := Pow2(p.width);
    RemainderSum(p.bits, i, m);
    assert PointerOffset(p, i) == BvVal(p.width, (p.bits + i % m) % m);
  }

  /** Within one turn around the address space, different bytes have different addresses. */
  lemma {:induction false} DistinctAddresses(w: nat, p: nat, i: nat, j: nat)
    requires i < j < i + Pow2(w)
    ensures Address(w, p, i) != Address(w, p, j)
  {
    var m := Pow2(w);
    if (p + i) % m == (p + j) % m {
      SameQuotient(m, (p + i) / m, (p + i) % m - i, (p + j) / m, (p + j) % m - j);
    }
  }

  // ---- Reading ----

  /** The number formed by `n` bytes from `p` on, the first one lowest. */
  function Number(mem: Memory, p: nat, n: nat): nat
    requires |mem.bytes| == Pow2(mem.width)
  {
    if n == 0 then 0 else mem.bytes[Address(mem.width, p, n - 1)] * Pow2(8 * (n - 1)) + Number(mem, p, n - 1)
  }

  lemma {:induction false} NumberBound(mem: Memory, p: nat, n: nat)
    requires mem.Valid()
    ensures Number(mem, p, n) < Pow2(8 * n)
  {
    if n > 0 {
      NumberBound(mem, p, n - 1);
      ConcatBound(mem.bytes[Address(mem.width, p, n - 1)], Number(mem, p, n - 1), 8, 8 * (n - 1));
      assert 8 + 8 * (n - 1) == 8 * n;
    }
  }

  /** Byte `i` of the number is byte `i` from `p` on. */
  lemma {:induction false} ByteOfNumber(mem: Memory, p: nat, n: nat, i: nat)
    requires mem.Valid() && i < n
    ensures Number(mem, p, n) / Pow2(8 * i) % Pow2(8) == mem.bytes[Address(mem.width, p, i)]
  {
    hide Pow2, Address;
    var b, low := mem.bytes[Address(mem.width, p, n - 1)], Number(mem, p, n - 1);
    assert Number(mem, p, n) == b * Pow2(8 * (n - 1)) + low;
    NumberBound(mem, p, n - 1);
    if i < n - 1 {
      ByteOfNumber(mem, p, n - 1, i);
      Split(i, n - 1);
    }
    hide Number;
    if i == n - 1 {
      UniqueRemainder(b * Pow2(8 * i) + low, Pow2(8 * i), b, low);
      UniqueRemainder(b, Pow2(8), 0, b);
    } else {
      HigherPart(b, Pow2(8 * (n - i - 2)), low, Pow2(8 * i), Pow2(8));
    }
  }

  lemma Split(i: nat, n: nat)
    requires i < n
    ensures Pow2(8 * n) == Pow2(8 * (n - i - 1)) * Pow2(8) * Pow2(8 * i)
  {
    hide Pow2;
    PowSum(8 * (n - i - 1), 8);
    PowSum(8 * (n - i - 1) + 8, 8 * i);
    assert 8 * (n - i - 1) + 8 + 8 * i == 8 * n;
  }

  method BuildMemoryRead(mem: Memory, pointer: Value, size: nat) returns (result: Value)
    requires mem.Valid() && mem.IsPointer(pointer) && size > 0
    ensures result == BvVal(8 * size, Number(mem, pointer.bits, size))
    ensures forall i | 0 <= i < size :: result.bits / Pow2(8 * i) % Pow2(8) == mem.bytes[(pointer.bits + i) % |mem.bytes|]
  {
    var w, p := mem.width, pointer.bits;
    forall i | 0 <= i < size ensures Number(mem, p, size) / Pow2(8 * i) % Pow2(8) == mem.bytes[(p + i) % |mem.bytes|] {
      ByteOfNumber(mem, p, size, i);
    }
    assert Address(w, p, 0) == p by { UniqueRemainder(p, Pow2(w), 0, p); }
    assert Pow2(0) == 1 && Number(mem, p, 0) == 0;
    result := mem.Load(pointer);
    for i := 1 to size
      invariant result == BvVal(8 * i, Number(mem, p, i))
    {
      OffsetAddress(pointer, i);
      result := EvalBinary(BvConcat, mem.Load(PointerOffset(pointer, i)), result);
    }
  }

  /** All `n` bytes from `p` on are non-zero. */
  predicate NonZero(mem: Memory, p: nat, n: nat)
    requires |mem.bytes| == Pow2(mem.width)
  {
    forall i | 0 <= i < n :: mem.bytes[Address(mem.width, p, i)] != 0
  }

  /** A Boolean is true when all its bytes are non-zero. */
  method BuildBoolRead(mem: Memory, pointer: Value, size: nat) returns (result: bool)
    requires mem.Valid() && mem.IsPointer(pointer) && size > 0
    ensures result <==> NonZero(mem, pointer.bits, size)
  {
    var w, p := mem.width, pointer.bits;
    assert Address(w, p, 0) == p by { UniqueRemainder(p, Pow2(w), 0, p); }
    hide Address;
    result := mem.Load(pointer) != BvVal(8, 0);
    for i := 1 to size
      invariant result <==> forall j | 0 <= j < i :: mem.bytes[Address(w, p, j)] != 0
    {
      OffsetAddress(pointer, i);
      result := mem.Load(PointerOffset(pointer, i)) != BvVal(8, 0) && result;
    }
  }

  // ---- Writing ----

  /** A Boolean takes one byte. */
  function BoolByte(b: bool): Value { BvVal(8, if b then 1 else 0) }

  /** Memory after the lowest `n` bytes of `x` went to the addresses from `p` on. */
  function Written(mem: Memory, p: nat, x: nat, n: nat): (r: Memory)
    requires |mem.bytes| == Pow2(mem.width)
    ensures r.width == mem.width && |r.bytes| == |mem.bytes|
  {
    if n == 0 then mem
    else Memory(mem.width, Written(mem, p, x, n - 1).bytes[Address(mem.width, p, n - 1) := Byte(x, n - 1)])
  }

  /** Byte `i` of a number. */
  function Byte(x: nat, i: nat): nat { x / Pow2(8 * i) % Pow2(8) }

  /** Byte `i` of `x` stands at address `p + i`, where later bytes overwrite earlier ones after a whole
      turn around the address space; nothing else has changed. */
  ghost predicate Spread(mem: Memory, mem': Memory, p: nat, x: nat, n: nat) {
    var size := |mem.bytes|;
    && |mem'.bytes| == size > 0
    && (forall i | 0 <= i < n <= i + size :: mem'.bytes[(p + i) % size] == x / Pow2(8 * i) % Pow2(8))
    && (forall a | 0 <= a < size && (a - p) % size >= n :: mem'.bytes[a] == mem.bytes[a])
  }

  lemma Distance(p: nat, i: nat, size: nat)
    requires size > 0
    ensures ((p + i) % size - p) % size <= i
  {
    var q, r := (p + i) / size, i % size;
    assert i == size * (i / size) + r;
    UniqueRemainder((p + i) % size - p, size, i / size - q, r);
  }

  lemma {:induction false} SpreadOut(mem: Memory, p: nat, x: nat, n: nat)
    requires mem.Valid()
    ensures Spread(mem, Written(mem, p, x, n), p, x, n)
  {
    var size := |mem.bytes|;
    forall i | 0 <= i < n <= i + size ensures Written(mem, p, x, n).bytes[(p + i) % size] == x / Pow2(8 * i) % Pow2(8) {
      WrittenAt(mem, p, x, n, i);
    }
    forall a | 0 <= a < size && (a - p) % size >= n ensures Written(mem, p, x, n).bytes[a] == mem.bytes[a] {
      forall i | 0 <= i < n ensures Address(mem.width, p, i) != a {
        Distance(p, i, size);
      }
      WrittenKeeps(mem, p, x, n, a);
    }
  }

  lemma NarrowBits(value: Value)
    requires value.BvVal?
    ensures value.width < 8 && value.bits < Pow2(value.width) ==> EvalExtend(false, value, 8).bits == value.bits
  {
    if value.width < 8 && value.bits < Pow2(value.width) {
      PowSum(value.width, 8 - value.width);
      SmallRemainder(value.bits, Pow2(8));
    }
  }

  method BuildMemoryWrite(mem: Memory, value: Value, pointer: Value, size: nat) returns (result: Memory)
    requires mem.Valid() && mem.IsPointer(pointer) && (value.BvVal? || value.BoolVal?)
    requires value.BvVal? && value.width == 8 ==> value.bits < Pow2(8)
    ensures value.BvVal? && value.width > 8 ==> result == Written(mem, pointer.bits, value.bits, size)
    ensures value.BvVal? && value.width == 8 ==> result == Written(mem, pointer.bits, value.bits, 1)
    ensures value.BvVal? && value.width < 8 ==> result == mem.Store(pointer, EvalExtend(false, value, 8))
    ensures value.BoolVal? ==> result == mem.Store(pointer, BoolByte(value.b))
    ensures value.BoolVal? ==> result.bytes == mem.bytes[pointer.bits := if value.b then 1 else 0]
    ensures value.BvVal? && value.width <= 8 && value.bits < Pow2(value.width) ==> result.bytes == mem.bytes[pointer.bits := value.bits]
    ensures value.BvVal? && value.width > 8 ==> Spread(mem, result, pointer.bits, value.bits, size)
    ensures result.Valid() && result.width == mem.width
  {
    var w, p := mem.width, pointer.bits;
    if value.BvVal? {
      SpreadOut(mem, p, value.bits, size);
      NarrowBits(value);
    }
    hide Spread;
    assert Address(w, p, 0) == p by { UniqueRemainder(p, Pow2(w), 0, p); }
    assert Pow2(8) > 1 by { assert Pow2(1) == 2; assert Pow2(8) == 2 * Pow2(7); }
    if value.BvVal? {
      if value.width == 8 {
        assert Byte(value.bits, 0) == value.bits by { UniqueRemainder(value.bits, Pow2(8), 0, value.bits); }
        assert Written(mem, p, value.bits, 0) == mem;
        return mem.Store(pointer, value);
      }
      if value.width < 8 {
        return mem.Store(pointer, EvalExtend(false, value, 8));
      }
      result := mem;
      for i := 0 to size
        invariant result == Written(mem, p, value.bits, i)
      {
        OffsetAddress(pointer, i);
        result := result.Store(PointerOffset(pointer, i), EvalExtract(value, i * 8, 8));
      }
      WrittenValid(mem, p, value.bits, size);
    } else {
      result := mem.Store(pointer, BoolByte(value.b));
    }
  }

  // ---- Round trips ----

  lemma {:induction false} WrittenKeeps(mem: Memory, p: nat, x: nat, n: nat, a: nat)
    requires |mem.bytes| == Pow2(mem.width) && a < |mem.bytes| && forall i | 0 <= i < n :: Address(mem.width, p, i) != a
    ensures Written(mem, p, x, n).bytes[a] == mem.bytes[a]
  {
    if n > 0 {
      WrittenKeeps(mem, p, x, n - 1, a);
    }
  }

  lemma {:induction false} WrittenAt(mem: Memory, p: nat, x: nat, n: nat, i: nat)
    requires |mem.bytes| == Pow2(mem.width) && i < n <= i + Pow2(mem.width)
    ensures Written(mem, p, x, n).bytes[Address(mem.width, p, i)] == Byte(x, i)
  {
    if i < n - 1 {
      WrittenAt(mem, p, x, n - 1, i);
      DistinctAddresses(mem.width, p, i, n - 1);
    }
    hide Byte;
  }

  /** The bytes of a number put together again give its low part. */
  lemma {:induction false} LowPart(x: nat, i: nat)
    ensures Byte(x, i) * Pow2(8 * i) + x % Pow2(8 * i) == x % Pow2(8 * (i + 1))
  {
    var a, b := Pow2(8 * i), Pow2(8);
    PowSum(8 * i, 8);
    assert 8 * i + 8 == 8 * (i + 1);
    SplitRemainder(x, a, b);
  }

  lemma {:induction false} ReadsBack(mem: Memory, p: nat, x: nat, n: nat, k: nat)
    requires |mem.bytes| == Pow2(mem.width) && k <= n <= Pow2(mem.width)
    ensures Number(Written(mem, p, x, n), p, k) == x % Pow2(8 * k)
    decreases k
  {
    if k > 0 {
      ReadsBack(mem, p, x, n, k - 1);
      WrittenAt(mem, p, x, n, k - 1);
      LowPart(x, k - 1);
      hide Written, Byte;
    } else {
      assert Pow2(0) == 1;
    }
  }

  /** Reading `n` bytes where a value of `8 * n` bits was written gives the value back. */
  lemma {:induction false} ReadAfterWrite(mem: Memory, p: nat, x: nat, n: nat)
    requires mem.Valid() && n <= Pow2(mem.width) && x < Pow2(8 * n)
    ensures Number(Written(mem, p, x, n), p, n) == x
  {
    ReadsBack(mem, p, x, n, n);
    UniqueRemainder(x, Pow2(8 * n), 0, x);
  }

  /** A Boolean read after a Boolean write gives the Boolean back exactly when it is false or the
      further bytes read, which the write leaves alone, are non-zero; so always when one byte is read. */
  lemma {:induction false} BoolReadAfterWrite(mem: Memory, pointer: Value, b: bool, size: nat)
    requires mem.Valid() && mem.IsPointer(pointer) && size > 0
    ensures var w, p := mem.width, pointer.bits;
            (NonZero(mem.Store(pointer, BoolByte(b)), p, size) <==> b)
            <==> (!b || forall i | 0 < i < size && Address(w, p, i) != p :: mem.bytes[Address(w, p, i)] != 0)
    ensures NonZero(mem.Store(pointer, BoolByte(b)), pointer.bits, 1) <==> b
  {
    var w, p, mem' := mem.width, pointer.bits, mem.Store(pointer, BoolByte(b));
    assert Address(w, p, 0) == p by { UniqueRemainder(p, Pow2(w), 0, p); }
    hide Address;
    assert mem'.bytes[Address(w, p, 0)] == if b then 1 else 0;
    assert forall a | 0 <= a < |mem.bytes| && a != p :: mem'.bytes[a] == mem.bytes[a];
  }

  /** True, written to a memory of two zero bytes, is read back over both as false. */
  lemma {:induction false} TrueIsLost()
    ensures var mem, p := Memory(1, [0, 0]), BvVal(1, 0);
            mem.Valid() && mem.IsPointer(p) && !NonZero(mem.Store(p, BoolByte(true)), 0, 2)
  {
    var mem := Memory(1, [0, 0]);
    assert Pow2(1) == 2 && Pow2(8) > 0;
    assert Address(1, 0, 1) == 1;
  }

  /** A write leaves every read of other bytes as it was. */
  lemma {:induction false} ReadElsewhere(mem: Memory, p: nat, x: nat, n: nat, q: nat, k: nat)
    requires |mem.bytes| == Pow2(mem.width)
    requires forall i, j | 0 <= i < n && 0 <= j < k :: Address(mem.width, p, i) != Address(mem.width, q, j)
    ensures Number(Written(mem, p, x, n), q, k) == Number(mem, q, k)
    decreases k
  {
    if k > 0 {
      ReadElsewhere(mem, p, x, n, q, k - 1);
      WrittenKeeps(mem, p, x, n, Address(mem.width, q, k - 1));
      hide Written, Address;
    }
  }

  /** A write keeps memory well formed. */
  lemma {:induction false} WrittenValid(mem: Memory, p: nat, x: nat, n: nat)
    requires mem.Valid()
    ensures Written(mem, p, x, n).Valid()
  {
    if n > 0 {
      WrittenValid(mem, p, x, n - 1);
    }
  }
}
