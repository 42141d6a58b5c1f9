/** Branch metrics of successor pairs, looked up through a key for each distinct pair of outputs. */
module PairLookups {
  import opened Bits
  import opened ConvCode

  /** The outputs of registers 2 * i and 2 * i + 1 side by side. */
  function PairOutput(i: nat): nat {
    Out(2 * i + 1) * 4 + Out(2 * i)
  }

  /** The outputs of a pair are complementary, so there are four pairs. */
  lemma FourPairs(i: nat)
    ensures PairOutput(i) in {3, 6, 9, 12}
  {
    hide Out;
    SiblingOutputs(i);
  }

  /** Two metrics in the halves of a word. */
  function PackedPair(d: seq<uint16>, i: nat): nat
    requires |d| == 4
  {
    d[Out(2 * i + 1)] as int * 0x10000 + d[Out(2 * i)] as int
  }

  class PairLookup {
    const keys: array<nat>
    const outputs: array<nat>
    const outputsLen: nat
    const distances: array<nat>

    ghost predicate Valid()
      reads keys, outputs
    {
      && keys.Length == NUM_STATES && outputs.Length == 16 && 1 <= distances.Length == outputsLen <= 5
      && distances != keys && distances != outputs
      && (forall k :: 1 <= k < outputsLen ==> outputs[k] < 16)
      && forall i :: 0 <= i < NUM_STATES ==> 1 <= keys[i] < outputsLen && outputs[keys[i]] == PairOutput(i)
    }

    /** Give every register pair the key of its outputs. */
    constructor (table: seq<nat>)
      requires |table| == NUM_REGISTERS && forall r :: 0 <= r < NUM_REGISTERS ==> table[r] == Out(r)
      ensures Valid() && fresh(keys) && fresh(outputs) && fresh(distances)
    {
      var k, o, n := AssignKeys(table);
      keys, outputs, outputsLen := k, o, n;
      distances := new nat[n](_ => 0);
    }

    /** The packed metrics of every pair, computed once for each key. */
    method FillDistance(d: array<uint16>)
      requires Valid() && d.Length == 4 && forall j :: 0 <= j < 4 ==> d[j] <= 510
      modifies distances
      ensures Valid()
      ensures forall i :: 0 <= i < NUM_STATES ==> distances[keys[i]] == PackedPair(d[..], i)
    {
      hide Out;
      ghost var values := d[..];
      for i := 1 to outputsLen
        invariant Valid() && d[..] == values
        invariant forall k :: 1 <= k < i ==>
          distances[k] == values[outputs[k] / 4] as int * 0x10000 + values[outputs[k] % 4] as int
      {
        var concatOut := outputs[i];
        var i0 := concatOut % 4;
        concatOut := concatOut / 4;
        var i1 := concatOut;
        distances[i] := d[i1] as int * 0x10000 + d[i0] as int;
      }
    }
  }

  /** The pairs of outputs that have a key. */
  function Keyed(inverse: seq<nat>): set<nat> {
    set o: nat | o < |inverse| && inverse[o] != 0
  }

  /** Keys count up from 1 as new pairs of outputs appear; inverse maps outputs to keys, 0 for none. */
  ghost predicate KeysFor(outputs: seq<nat>, inverse: seq<nat>, counter: nat) {
    && |outputs| == |inverse| == 16 && counter == 1 + |Keyed(inverse)| <= 5 && Keyed(inverse) <= {3, 6, 9, 12}
    && (forall o :: 0 <= o < 16 && inverse[o] != 0 ==> inverse[o] < counter && outputs[inverse[o]] == o)
    && forall k :: 1 <= k < counter ==> outputs[k] < 16
  }

  lemma NoKeys(inverse: seq<nat>)
    requires forall o :: 0 <= o < |inverse| ==> inverse[o] == 0
    ensures Keyed(inverse) == {}
  {
  }

  /** A new pair of outputs gets the next key. */
  lemma NewKey(outputs: seq<nat>, inverse: seq<nat>, counter: nat, out: nat)
    requires KeysFor(outputs, inverse, counter) && out in {3, 6, 9, 12} && inverse[out] == 0
    ensures counter < 5 && KeysFor(outputs[counter := out], inverse[out := counter], counter + 1)
  {
    var more := inverse[out := counter];
    KeyedGrows(inverse, out, counter);
    AtMostFour(Keyed(inverse) + {out});
    hide Keyed;
    forall o | 0 <= o < 16 && more[o] != 0
      ensures more[o] < counter + 1 && outputs[counter := out][more[o]] == o
    {
      if o != out {
        assert inverse[o] != 0;
      }
    }
  }

  lemma KeyedGrows(inverse: seq<nat>, out: nat, counter: nat)
    requires out < |inverse| && inverse[out] == 0 && counter != 0
    ensures Keyed(inverse[out := counter]) == Keyed(inverse) + {out} && out !in Keyed(inverse)
  {
  }

  lemma AtMostFour(s: set<nat>)
    requires s <= {3, 6, 9, 12}
    ensures |s| <= 4
  {
    var rest := {3, 6, 9, 12} - s;
    assert {3, 6, 9, 12} == s + rest;
    assert |s + rest| == |s| + |rest|;
  }

  method AssignKeys(table: seq<nat>) returns (keys: array<nat>, outputs: array<nat>, counter: nat)
    requires |table| == NUM_REGISTERS && forall r :: 0 <= r < NUM_REGISTERS ==> table[r] == Out(r)
    ensures fresh(keys) && fresh(outputs) && keys.Length == NUM_STATES && outputs.Length == 16 && 1 <= counter <= 5
    ensures forall k :: 1 <= k < counter ==> outputs[k] < 16
    ensures forall i :: 0 <= i < NUM_STATES ==> 1 <= keys[i] < counter && outputs[keys[i]] == PairOutput(i)
  {
    hide Out, Keyed;
    keys := new nat[NUM_STATES];
    outputs := new nat[16](_ => 0);
    var inverse := new nat[16](_ => 0);
    counter := 1;
    NoKeys(inverse[..]);
    for i := 0 to NUM_STATES
      invariant KeysFor(outputs[..], inverse[..], counter)
      invariant forall j :: 0 <= j < i ==> 1 <= keys[j] < counter && outputs[keys[j]] == PairOutput(j)
    {
      var out := table[i * 2 + 1];
      out := out * 4;
      out := out + table[i * 2];
      FourPairs(i);
      if inverse[out] == 0 {
        NewKey(outputs[..], inverse[..], counter, out);
        inverse[out] := counter;
        outputs[counter] := out;
        counter := counter + 1;
      }
      keys[i] := inverse[out];
    }
  }
}
