/**
 * Wire storage: a slab of values with a remaining-read counter ("credits") for each.
 * A slot is freed by the read that uses the last credit, and its index may then be reused.
 */
module Storage {
  import opened Wrappers

  const MAX_CREDITS: nat := 0xFFFF

  /** A stored entry always has at least one read left; the counter is 16 bits wide. */
  type Credits = c: int | 0 < c <= MAX_CREDITS witness 1

  /**
   * A wire identifier. The source packs it in one word: 0 and 1 are the constants, the
   * largest word is the unreachable sentinel, and slab slot i is i + 2.
   */
  datatype Wire = FalseWire | TrueWire | Unreachable | Slot(index: nat)

  datatype Entry<T> = Entry(credits: Credits, data: T)

  datatype Error = NotFound | OverflowCredits

  type Slab<T> = map<nat, Entry<T>>

  /** The slab after one read of slot `i`: the last credit removes the slot. */
  function Taken<T>(data: Slab<T>, i: nat): (r: Slab<T>)
    requires i in data
    ensures i in r <==> data[i].credits != 1
    ensures forall j :: j in data && j != i ==> j in r && r[j] == data[j]
    ensures forall j :: j in r ==> j in data
  {
    if data[i].credits == 1 then data - {i}
    else data[i := Entry(data[i].credits - 1, data[i].data)]
  }

  lemma VacantExists(s: set<nat>)
    ensures exists k: nat :: k !in s
  {
    var k := UpperBound(s);
    assert k !in s;
  }

  ghost function UpperBound(s: set<nat>): (b: nat)
    ensures forall x :: x in s ==> x < b
  {
    if s == {} then 0
    else
      var x :| x in s;
      var b := UpperBound(s - {x});
      assert forall y :: y in s ==> y == x || y in s - {x};
      if x < b then b else x + 1
  }

  class Store<T> {
    var data: Slab<T>

    constructor ()
      ensures data == map[]
    {
      data := map[];
    }

    /**
     * Stores a value under some vacant index, whichever the slab picks. Without credits nothing
     * is stored and the sentinel comes back.
     */
    method Allocate(value: T, credits: nat) returns (key: Wire)
      requires credits <= MAX_CREDITS
      modifies this
      ensures credits == 0 ==> key == Unreachable && data == old(data)
      ensures credits > 0 ==>
                key.Slot? && key.index !in old(data) && data == old(data)[key.index := Entry(credits, value)]
    {
      if credits == 0 {
        return Unreachable;
      }
      VacantExists(data.Keys);
      var k: nat :| k !in data.Keys;
      data := data[k := Entry(credits, value)];
      key := Slot(k);
    }

    method AddCredits(key: Wire, credits: nat) returns (r: Result<(), Error>)
      modifies this
      ensures !(key.Slot? && key.index in data) ==> r == Failure(NotFound)
      ensures key.Slot? && key.index in old(data) ==>
                var e := old(data)[key.index];
                if e.credits + credits <= MAX_CREDITS
                then r.Success? && data == old(data)[key.index := Entry(e.credits + credits, e.data)]
                else r == Failure(OverflowCredits)
      ensures r.Failure? ==> data == old(data)
    {
      if !key.Slot? || key.index !in data {
        return Failure(NotFound);
      }
      var e := data[key.index];
      if e.credits + credits > MAX_CREDITS {
        return Failure(OverflowCredits);
      }
      data := data[key.index := Entry(e.credits + credits, e.data)];
      r := Success(());
    }

    /** Reads a value and spends one credit. */
    method Get(key: Wire) returns (r: Result<T, Error>)
      modifies this
      ensures r == if key.Slot? && key.index in old(data) then Success(old(data)[key.index].data) else Failure(NotFound)
      ensures data == if r.Success? then Taken(old(data), key.index) else old(data)
    {
      if !key.Slot? || key.index !in data {
        return Failure(NotFound);
      }
      var e := data[key.index];
      if e.credits == 1 {
        data := data - {key.index};
      } else {
        data := data[key.index := Entry(e.credits - 1, e.data)];
      }
      r := Success(e.data);
    }

    /** Overwrites a value; credits stay as they are. */
    method Set(key: Wire, value: T) returns (r: Result<(), Error>)
      modifies this
      ensures r == if key.Slot? && key.index in old(data) then Success(()) else Failure(NotFound)
      ensures data == if r.Failure? then old(data)
                      else old(data)[key.index := Entry(old(data)[key.index].credits, value)]
    {
      if !key.Slot? || key.index !in data {
        return Failure(NotFound);
      }
      data := data[key.index := Entry(data[key.index].credits, value)];
      r := Success(());
    }
  }
}
