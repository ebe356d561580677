/** The total value of a UTXO set, and how spending, creating and overwriting entries change it. */
module UtxoValue {
  import opened Models
  import opened Utxo

  ghost function Pick(m: UtxoMap): (o: OutPoint)
    requires m != map[]
    ensures o in m
  {
    assert m.Keys != {};
    var o :| o in m;
    o
  }

  ghost function Value(m: UtxoMap): int
    decreases |m|
  {
    if m == map[] then 0
    else
      var o := Pick(m);
      RemovalShrinks(m, o);
      m[o].output.value + Value(m - {o})
  }

  lemma RemovalShrinks(m: UtxoMap, o: OutPoint)
    requires o in m
    ensures |m - {o}| < |m|
  {
    assert (m - {o}).Keys == m.Keys - {o};
    assert |m.Keys| == |(m - {o}).Keys| + 1;
  }

  ghost predicate NonNegative(m: UtxoMap) {
    forall o :: o in m ==> m[o].output.value >= 0
  }

  ghost function Restrict(m: UtxoMap, keys: set<OutPoint>): UtxoMap {
    map o | o in m && o in keys :: m[o]
  }

  lemma {:induction false} ValueRemove(m: UtxoMap, o: OutPoint)
    requires o in m
    ensures Value(m) == m[o].output.value + Value(m - {o})
    decreases |m|
  {
    var c := Pick(m);
    if c != o {
      RemovalShrinks(m, c);
      RemovalShrinks(m, o);
      ValueRemove(m - {c}, o);
      ValueRemove(m - {o}, c);
      assert m - {c} - {o} == m - {o} - {c};
    }
  }

  lemma {:induction false} ValueNonNegative(m: UtxoMap)
    requires NonNegative(m)
    ensures Value(m) >= 0
    ensures Value(m) == 0 ==> forall o :: o in m ==> m[o].output.value == 0
    decreases |m|
  {
    if m != map[] {
      var c := Pick(m);
      RemovalShrinks(m, c);
      ValueNonNegative(m - {c});
      if Value(m) == 0 {
        forall o | o in m ensures m[o].output.value == 0 {
          if o != c { assert o in m - {c}; }
        }
      }
    }
  }

  lemma {:induction false} ValueAllZero(m: UtxoMap)
    requires forall o :: o in m ==> m[o].output.value == 0
    ensures Value(m) == 0
    decreases |m|
  {
    if m != map[] {
      RemovalShrinks(m, Pick(m));
      ValueAllZero(m - {Pick(m)});
    }
  }

  lemma UnionRemove(a: UtxoMap, b: UtxoMap, o: OutPoint)
    requires a.Keys !! b.Keys && o in b
    ensures (a + b) - {o} == a + (b - {o})
    ensures o in a + b && (a + b)[o] == b[o]
    ensures a.Keys !! (b - {o}).Keys
  {
  }

  lemma ValueEmpty()
    ensures Value(map[]) == 0
  {
  }

  lemma {:induction false} ValueUnion(a: UtxoMap, b: UtxoMap)
    requires a.Keys !! b.Keys
    ensures Value(a + b) == Value(a) + Value(b)
    decreases |b|
  {
    hide Value;
    if b == map[] {
      assert a + b == a;
      ValueEmpty();
    } else {
      var o := Pick(b);
      RemovalShrinks(b, o);
      ValueUnion(a, b - {o});
      ValueRemove(a + b, o);
      ValueRemove(b, o);
      UnionRemove(a, b, o);
    }
  }

  lemma ValueWithout(m: UtxoMap, keys: set<OutPoint>)
    ensures Value(m - keys) == Value(m) - Value(Restrict(m, keys))
  {
    assert m == (m - keys) + Restrict(m, keys);
    ValueUnion(m - keys, Restrict(m, keys));
  }

  /** Writing entries adds their value and loses the value of the entries they replace. */
  lemma ValueOverwrite(m: UtxoMap, c: UtxoMap)
    ensures Value(m + c) == Value(m) - Value(Restrict(m, c.Keys)) + Value(c)
  {
    assert m + c == (m - c.Keys) + c;
    ValueUnion(m - c.Keys, c);
    ValueWithout(m, c.Keys);
  }

  /** A part of a set of outputs is worth at most the whole. */
  lemma ValueSubmap(a: UtxoMap, b: UtxoMap)
    requires NonNegative(b)
    requires forall o :: o in a ==> o in b && a[o].output.value == b[o].output.value
    ensures Value(a) <= Value(b)
  {
    ValueSameValues(a, Restrict(b, a.Keys));
    ValueWithout(b, a.Keys);
    ValueNonNegative(b - a.Keys);
  }

  lemma {:induction false} ValueSameValues(a: UtxoMap, b: UtxoMap)
    requires a.Keys == b.Keys && (forall o :: o in a ==> a[o].output.value == b[o].output.value)
    ensures Value(a) == Value(b)
    decreases |a|
  {
    if a != map[] {
      var o := Pick(a);
      RemovalShrinks(a, o);
      ValueRemove(b, o);
      ValueSameValues(a - {o}, b - {o});
    } else {
      assert b.Keys == {};
      assert b == map[];
    }
  }

  lemma {:induction false} OutputTotalAppend(outputs: seq<TxOutput>, out: TxOutput)
    ensures OutputTotal(outputs + [out]) == OutputTotal(outputs) + out.value
  {
    if outputs == [] {
      assert [out][1..] == [];
      assert outputs + [out] == [out];
    } else {
      assert (outputs + [out])[1..] == outputs[1..] + [out];
      OutputTotalAppend(outputs[1..], out);
    }
  }

  lemma {:induction false} ValueCreates(txid: Hash, outputs: seq<TxOutput>, height: int, isCoinbase: bool)
    ensures Value(Creates(txid, outputs, height, isCoinbase)) == OutputTotal(outputs)
  {
    if outputs != [] {
      var k := |outputs| - 1;
      var before, after := Creates(txid, outputs[..k], height, isCoinbase), Creates(txid, outputs, height, isCoinbase);
      ValueCreates(txid, outputs[..k], height, isCoinbase);
      assert outputs[..k + 1] == outputs && outputs == outputs[..k] + [outputs[k]];
      CreatesStep(txid, outputs, k, height, isCoinbase);
      OutputTotalAppend(outputs[..k], outputs[k]);
      var o := OutPoint(txid, k);
      assert o !in before;
      assert after - {o} == before;
      ValueRemove(after, o);
    }
  }
}
