/** Exactly which AWG 2.0 parameter sets the normaliser leaves alone, said without the normaliser. */
module ObfuscationNormalForm {
  import opened Text
  import opened Numerals
  import opened Obfuscation
  import opened ObfuscationProofs

  // A positive number's text, or the two bounds of a nonempty range; below 2^32.
  ghost predicate HText(v: Value) {
    exists lo: nat, hi: nat :: HBounds(lo, hi) && (v == Str(BoundsText(lo, hi)) || (lo == hi && v == Str(NatText(hi))))
  }

  ghost predicate HBounds(lo: nat, hi: nat) {
    lo <= hi <= H_MAX && hi > 0
  }

  function BoundsText(lo: nat, hi: nat): string {
    NatText(lo) + "-" + NatText(hi)
  }

  ghost predicate NormalValue(k: string, v: Value) {
    if k in TEXT_KEYS then v.Str? && v.s != "" && Trimmed(v.s)
    else if k in H_KEYS then HText(v)
    else v.Int? && v.n > 0
  }

  ghost predicate BoundsKept(out: Params, mtu: Option<int>) {
    && ("Jc" in out ==> out["Jc"].Int? && out["Jc"].n <= 128)
    && ("Jmin" in out ==> out["Jmin"].Int? && out["Jmin"].n <= 1280)
    && ("Jmax" in out ==> out["Jmax"].Int? && out["Jmax"].n <= 1280)
    && ("S1" in out ==> out["S1"].Int? && out["S1"].n <= BaseMtu(mtu) - 148)
    && ("S2" in out ==> out["S2"].Int? && out["S2"].n <= BaseMtu(mtu) - 92)
    && ("S1" in out && "S2" in out ==> out["S1"].n + 56 != out["S2"].n)
    && ("Jmin" in out && "Jmax" in out ==> out["Jmin"].n <= out["Jmax"].n)
  }

  ghost predicate HDisjoint(out: Params) {
    forall i, j, x :: 0 <= i < j < |H_KEYS| && H_KEYS[i] in out && H_KEYS[j] in out ==>
      !(InRange(x, out[H_KEYS[i]]) && InRange(x, out[H_KEYS[j]]))
  }

  ghost predicate NormalForm(out: Params, mtu: Option<int>) {
    && (forall k :: k in out ==> k in AWG2_ORDER && NormalValue(k, out[k]))
    && BoundsKept(out, mtu) && HDisjoint(out)
  }

  // ---- one value ----

  lemma {:induction false} HTextReads(v: Value)
    requires HText(v)
    ensures ReadRange(v).Some? && v == Str(ReadRange(v).value.rendered)
    ensures 0 < ReadRange(v).value.hi <= H_MAX && ReadRange(v).value.lo <= ReadRange(v).value.hi
  {
    hide NatText, ReadRange;
    var lo: nat, hi: nat :|
      HBounds(lo, hi) && (v == Str(BoundsText(lo, hi)) || (lo == hi && v == Str(NatText(hi))));
    BoundsReadBack(lo, hi);
    IntReadsBack(hi);
  }

  lemma {:induction false} ReadsHText(v: Value)
    requires v.Str? && ReadRange(v).Some? && v == Str(ReadRange(v).value.rendered)
    requires 0 < ReadRange(v).value.hi <= H_MAX && ReadRange(v).value.lo <= ReadRange(v).value.hi
    ensures HText(v)
  {
    hide NatText, ParseNat, ParseInt, Strip, IndexOf, IsDigits, DropDashes;
    var r := ReadRange(v).value;
    assert r.lo >= 0;
    assert HBounds(r.lo, r.hi);
  }

  lemma {:induction false} NormalValueKept(k: string, v: Value, mtu: Option<int>)
    requires k in AWG2_ORDER && NormalValue(k, v)
    requires k !in TEXT_KEYS && k !in H_KEYS ==> InAwg2Range(k, v.n, mtu)
    ensures NormalKey(Awg2(mtu), k, v) == Ok(Some(v))
  {
    hide ReadRange, InAwg2Range, HText;
    if k in TEXT_KEYS {
      StripOfTrimmed(v.s);
    } else if k in H_KEYS {
      HTextReads(v);
    } else {
      IntReadsItself(v.n);
    }
  }

  lemma {:induction false} KeptIsNormal(k: string, v: Value, mtu: Option<int>)
    requires NormalKey(Awg2(mtu), k, v) == Ok(Some(v))
    ensures NormalValue(k, v)
  {
    hide ReadRange, InAwg2Range, HText, Strip, ReadInt;
    if k in TEXT_KEYS {
      StripTrims(v.s);
    } else if k in H_KEYS {
      assert ReadRange(v).value.hi > 0;
      ReadsHText(v);
    }
  }

  lemma {:induction false} InBounds(out: Params, mtu: Option<int>, k: string)
    requires k in out && k in AWG2_ORDER && k !in TEXT_KEYS && k !in H_KEYS
    requires NormalValue(k, out[k]) && BoundsKept(out, mtu)
    ensures InAwg2Range(k, out[k].n, mtu)
  {
  }

  // ---- ranges ----

  lemma {:induction false} RangeOrigin(keys: seq<string>, obf: Params, a: nat) returns (i: nat)
    requires a < |Ranges(keys, obf)|
    ensures i < |keys| && ReadRange(Get(obf, keys[i])) == Some(Ranges(keys, obf)[a])
  {
    hide ReadRange, Get;
    var n := |keys| - 1;
    if a < |Ranges(keys[..n], obf)| {
      i := RangeOrigin(keys[..n], obf, a);
    } else {
      i := n;
    }
  }

  lemma {:induction false} ApartRanges(keys: seq<string>, obf: Params)
    requires forall i, j :: 0 <= i < j < |keys| ==> KeysApart(obf, keys[i], keys[j])
    ensures PairwiseApart(Ranges(keys, obf))
  {
    hide ReadRange, Get, Overlaps;
    if keys != [] {
      var n := |keys| - 1;
      ApartRanges(keys[..n], obf);
      var front := Ranges(keys[..n], obf);
      forall a | 0 <= a < |front| && ReadRange(Get(obf, keys[n])).Some?
        ensures !Overlaps(front[a], ReadRange(Get(obf, keys[n])).value)
      {
        var i := RangeOrigin(keys[..n], obf, a);
        assert KeysApart(obf, keys[i], keys[n]);
      }
    }
  }

  ghost predicate KeysApart(obf: Params, k: string, l: string) {
    ReadRange(Get(obf, k)).Some? && ReadRange(Get(obf, l)).Some? ==>
      !Overlaps(ReadRange(Get(obf, k)).value, ReadRange(Get(obf, l)).value)
  }

  lemma {:induction false} DisjointApart(out: Params, i: nat, j: nat)
    requires HDisjoint(out) && i < j < |H_KEYS|
    ensures KeysApart(out, H_KEYS[i], H_KEYS[j])
  {
    hide ReadRange;
    NothingRead();
    var k, l := H_KEYS[i], H_KEYS[j];
    if k in out && l in out && ReadRange(out[k]).Some? && ReadRange(out[l]).Some? {
      var a, b := ReadRange(out[k]).value, ReadRange(out[l]).value;
      var x := if a.lo > b.lo then a.lo else b.lo;
      assert !(InRange(x, out[k]) && InRange(x, out[l]));
      OverlapShared(a, b);
    }
  }

  // Of two nonempty overlapping ranges, the larger lower bound lies in both.
  lemma {:induction false} OverlapShared(a: Range, b: Range)
    ensures var x := if a.lo > b.lo then a.lo else b.lo;
            Overlaps(a, b) ==> a.lo <= x <= a.hi && b.lo <= x <= b.hi
  {
  }

  // ---- the theorem ----

  lemma {:induction false} NormalFormStays(out: Params, mtu: Option<int>)
    requires NormalForm(out, mtu)
    ensures NormalizeAwg2(out, mtu) == Ok(out)
  {
    hide Collect, NormalKey, Ranges, PairwiseApart, InAwg2Range, NormalValue, HDisjoint;
    forall k | k in AWG2_ORDER && k in out ensures NormalKey(Awg2(mtu), k, out[k]) == Ok(Some(out[k])) {
      if k !in TEXT_KEYS && k !in H_KEYS {
        InBounds(out, mtu, k);
      }
      NormalValueKept(k, out[k], mtu);
    }
    CollectNormal(Awg2(mtu), AWG2_ORDER, out);
    assert Collect(Awg2(mtu), AWG2_ORDER, out).value == out;
    forall i, j | 0 <= i < j < |H_KEYS| ensures KeysApart(out, H_KEYS[i], H_KEYS[j]) {
      DisjointApart(out, i, j);
    }
    ApartRanges(H_KEYS, out);
  }

  lemma {:induction false} StaysInNormalForm(out: Params, mtu: Option<int>)
    requires NormalizeAwg2(out, mtu) == Ok(out)
    ensures NormalForm(out, mtu)
  {
    hide Collect, NormalKey, Ranges, PairwiseApart, NormalValue, InRange, CrossChecked, BaseMtu;
    CrossCheckedFacts(Collect(Awg2(mtu), AWG2_ORDER, out).value);
    forall k | k in out ensures k in AWG2_ORDER && NormalValue(k, out[k]) {
      CollectAt(Awg2(mtu), AWG2_ORDER, out, k);
      KeptIsNormal(k, out[k], mtu);
    }
    Awg2Numbers(out, mtu);
    IntKeyNames();
    forall i, j, x | 0 <= i < j < |H_KEYS| && H_KEYS[i] in out && H_KEYS[j] in out
      ensures !(InRange(x, out[H_KEYS[i]]) && InRange(x, out[H_KEYS[j]]))
    {
      HRangesDisjoint(out, mtu, i, j, x);
    }
  }

  /** A parameter set passes the AWG 2.0 normaliser unchanged exactly when it is in normal form. */
  lemma {:induction false} UnchangedExactlyWhenNormal(out: Params, mtu: Option<int>)
    ensures NormalizeAwg2(out, mtu) == Ok(out) <==> NormalForm(out, mtu)
  {
    hide NormalizeAwg2, NormalForm;
    if NormalForm(out, mtu) {
      NormalFormStays(out, mtu);
    }
    if NormalizeAwg2(out, mtu) == Ok(out) {
      StaysInNormalForm(out, mtu);
    }
  }

  /** So every result is in normal form, and every set in normal form is a result. */
  lemma {:induction false} ResultsAreNormalForms(out: Params, mtu: Option<int>)
    ensures (exists obf :: NormalizeAwg2(obf, mtu) == Ok(out)) <==> NormalForm(out, mtu)
  {
    hide NormalizeAwg2, NormalForm;
    UnchangedExactlyWhenNormal(out, mtu);
    if exists obf :: NormalizeAwg2(obf, mtu) == Ok(out) {
      var obf :| NormalizeAwg2(obf, mtu) == Ok(out);
      Awg2Idempotent(obf, mtu);
    }
  }

  /** A legacy result passes the AWG 2.0 normaliser unchanged exactly when its own S1 and S2 fit the MTU. */
  lemma {:induction false} LegacySetPassesExactlyWhen(obf: Params, mtu: Option<int>)
    requires NormalizeLegacy(obf).Ok?
    ensures var out := NormalizeLegacy(obf).value;
            && ("S1" in out ==> out["S1"].Int?) && ("S2" in out ==> out["S2"].Int?)
            && (NormalizeAwg2(out, mtu) == Ok(out) <==>
                  (("S1" in out ==> out["S1"].n <= BaseMtu(mtu) - 148) &&
                   ("S2" in out ==> out["S2"].n <= BaseMtu(mtu) - 92)))
  {
    hide NormalizeLegacy, NormalizeAwg2, NormalValue, HDisjoint;
    var out := NormalizeLegacy(obf).value;
    LegacyPassesAwg2(obf, None);
    UnchangedExactlyWhenNormal(out, None);
    UnchangedExactlyWhenNormal(out, mtu);
    assert BoundsKept(out, None);
  }
}
