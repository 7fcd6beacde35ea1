/** What the normalised obfuscation parameters satisfy, and that normalising them again changes nothing. */
module ObfuscationProofs {
  import opened Text
  import opened Numerals
  import opened Obfuscation

  // ---- one value ----

  lemma {:induction false} DigitsTrimmed(s: string)
    requires s != "" && AllDigits(s)
    ensures Trimmed(s) && Strip(s) == s && DropDashes(s) == s && '-' !in s && IsDigits(s)
  {
    StripOfTrimmed(s);
  }

  lemma {:induction false} RangeTextParts(lo: nat, hi: nat)
    ensures var t := NatText(lo) + "-" + NatText(hi);
            && Strip(t) == t && DropDashes(t) == t && '-' in t && !IsDigits(t)
            && IndexOf(t, '-') == |NatText(lo)| && t[..|NatText(lo)|] == NatText(lo)
            && t[|NatText(lo)| + 1..] == NatText(hi)
  {
    hide NatText, IndexOf;
    var a, b := NatText(lo), NatText(hi);
    var t := a + "-" + b;
    assert t[|a|] == '-' && !IsDigit(t[|a|]);
    assert t[..|a|] == a && t[|a| + 1..] == b;
    StripOfTrimmed(t);
    IndexOfIs(t, '-', |a|);
  }

  // A kept range reads back as itself.
  lemma {:induction false} RenderedReadsBack(t: string)
    requires RangeOfText(t).Some? && RangeOfText(t).value.hi > 0
    ensures ReadRange(Str(RangeOfText(t).value.rendered)) == RangeOfText(t)
  {
    hide NatText, ParseNat, Strip, IndexOf;
    var r := RangeOfText(t).value;
    if IsDigits(DropDashes(t)) {
      hide RangeOfText;
      IntReadsBack(r.hi);
    } else {
      var i := IndexOf(t, '-');
      var left, right := Strip(t[..i]), Strip(t[i + 1..]);
      BoundsReadBack(ParseNat(left).value, ParseNat(right).value);
    }
  }

  lemma {:induction false} IntReadsBack(n: int)
    requires n > 0
    ensures ReadRange(Str(IntText(n))) == Some(Range(n, n, IntText(n)))
  {
    hide NatText, ParseInt, Strip;
    DigitsTrimmed(NatText(n));
    ParseIntText(n);
  }

  lemma {:induction false} BoundsReadBack(lo: nat, hi: nat)
    ensures ReadRange(Str(NatText(lo) + "-" + NatText(hi))) == Some(Range(lo, hi, NatText(lo) + "-" + NatText(hi)))
  {
    hide NatText, ParseNat, Strip, IndexOf, IsDigits, DropDashes;
    RangeTextParts(lo, hi);
    DigitsTrimmed(NatText(lo));
    DigitsTrimmed(NatText(hi));
    ParseOfNatText(lo);
    ParseOfNatText(hi);
  }

  lemma {:induction false} KeptRangeReadsBack(v: Value)
    requires ReadRange(v).Some? && ReadRange(v).value.hi > 0
    ensures ReadRange(Str(ReadRange(v).value.rendered)) == ReadRange(v)
  {
    hide RangeOfText, IntText;
    match v
    case Int(n) => IntReadsBack(n);
    case Str(s) => RenderedReadsBack(Strip(s));
  }

  // What a normaliser keeps for a key it keeps again.
  lemma {:induction false} NormalKeyAgain(p: Profile, k: string, v: Value)
    requires NormalKey(p, k, v).Ok? && NormalKey(p, k, v).value.Some?
    ensures NormalKey(p, k, NormalKey(p, k, v).value.value) == NormalKey(p, k, v)
  {
    hide Strip, ReadRange, ReadInt, InAwg2Range, InLegacyRange;
    if k in TEXT_KEYS {
      StripTrims(v.s);
      StripOfTrimmed(Strip(v.s));
    } else if k in H_KEYS {
      KeptRangeReadsBack(v);
    } else {
      var n := NormalKey(p, k, v).value.value.n;
      IntReadsItself(n);
    }
  }

  lemma {:induction false} IntReadsItself(n: int)
    ensures ReadInt(Int(n)) == Some(n)
  {
  }

  // ---- all keys ----

  // A collected map holds, for each listed key, what the key's own normalisation keeps.
  lemma {:induction false} CollectAt(p: Profile, keys: seq<string>, obf: Params, k: string)
    requires Collect(p, keys, obf).Ok?
    ensures var out := Collect(p, keys, obf).value;
            && (k in out ==> k in keys)
            && (k in keys ==> NormalKey(p, k, Get(obf, k)) == Ok(if k in out then Some(out[k]) else None))
  {
    hide NormalKey, Get;
    if keys != [] {
      CollectAt(p, keys[..|keys| - 1], obf, k);
      assert keys == keys[..|keys| - 1] + [keys[|keys| - 1]];
    }
  }

  lemma {:induction false} NullOmitted(p: Profile, k: string)
    ensures NormalKey(p, k, Null) == Ok(None)
  {
  }

  // Collecting a map whose values are all in normal form returns its listed part.
  lemma {:induction false} CollectNormal(p: Profile, keys: seq<string>, out: Params)
    requires forall k :: k in keys && k in out ==> NormalKey(p, k, out[k]) == Ok(Some(out[k]))
    ensures Collect(p, keys, out).Ok?
    ensures forall k :: k in Collect(p, keys, out).value <==> k in keys && k in out
    ensures forall k :: k in Collect(p, keys, out).value ==> Collect(p, keys, out).value[k] == out[k]
  {
    hide NormalKey;
    if keys != [] {
      var front, k := keys[..|keys| - 1], keys[|keys| - 1];
      assert keys == front + [k];
      CollectNormal(p, front, out);
      NullOmitted(p, k);
    }
  }

  lemma {:induction false} CollectAgain(p: Profile, keys: seq<string>, obf: Params)
    requires Collect(p, keys, obf).Ok?
    ensures Collect(p, keys, Collect(p, keys, obf).value) == Collect(p, keys, obf)
  {
    hide NormalKey, Collect;
    var out := Collect(p, keys, obf).value;
    forall k | k in out ensures k in keys && NormalKey(p, k, out[k]) == Ok(Some(out[k])) {
      CollectAt(p, keys, obf, k);
      NormalKeyAgain(p, k, Get(obf, k));
    }
    CollectNormal(p, keys, out);
    assert Collect(p, keys, out).value == out;
  }

  lemma {:induction false} NormalHIs(p: Profile, k: string, v: Value)
    requires k in H_KEYS
    ensures NormalKey(p, k, v) == NormalH(k, v)
  {
    assert k !in TEXT_KEYS;
  }

  // The kept ranges of the result are those of the input.
  lemma {:induction false} RangesAgain(p: Profile, keys: seq<string>, obf: Params, out: Params)
    requires forall k :: k in keys ==>
               k in H_KEYS && NormalKey(p, k, Get(obf, k)) == Ok(if k in out then Some(out[k]) else None)
    ensures Ranges(keys, out) == Ranges(keys, obf)
  {
    hide ReadRange, NormalKey;
    if keys != [] {
      var k := keys[|keys| - 1];
      RangesAgain(p, keys[..|keys| - 1], obf, out);
      NormalHIs(p, k, Get(obf, k));
      if k in out {
        KeptRangeReadsBack(Get(obf, k));
      } else {
        NothingRead();
      }
    }
  }

  lemma {:induction false} NothingRead()
    ensures ReadRange(Null) == None
  {
  }

  lemma {:induction false} CrossCheckedFacts(out: Params)
    requires CrossChecked(out).Ok?
    ensures CrossChecked(out) == Ok(out)
    ensures "S1" in out && "S2" in out && out["S1"].Int? && out["S2"].Int? ==> out["S1"].n + 56 != out["S2"].n
    ensures "Jmin" in out && "Jmax" in out && out["Jmin"].Int? && out["Jmax"].Int? ==> out["Jmin"].n <= out["Jmax"].n
  {
  }

  lemma {:induction false} KeysKnown(p: Profile, keys: seq<string>, obf: Params)
    requires Collect(p, keys, obf).Ok?
    ensures forall k :: k in Collect(p, keys, obf).value ==> k in keys
  {
    hide Collect;
    forall k | k in Collect(p, keys, obf).value ensures k in keys {
      CollectAt(p, keys, obf, k);
    }
  }

  lemma {:induction false} InOrder(k: string)
    requires k in H_KEYS || k in INT_KEYS || k in TEXT_KEYS
    ensures k in AWG2_ORDER
  {
  }

  /** Normalising a normalised AWG 2.0 parameter set again with the same MTU returns it unchanged. */
  lemma {:induction false} Awg2Idempotent(obf: Params, mtu: Option<int>)
    requires NormalizeAwg2(obf, mtu).Ok?
    ensures NormalizeAwg2(NormalizeAwg2(obf, mtu).value, mtu) == NormalizeAwg2(obf, mtu)
  {
    hide Collect, CrossChecked, NormalKey, Ranges, PairwiseApart;
    var p := Awg2(mtu);
    var out := Collect(p, AWG2_ORDER, obf).value;
    CrossCheckedFacts(out);
    KeysKnown(p, AWG2_ORDER, obf);
    CollectAgain(p, AWG2_ORDER, obf);
    forall k | k in H_KEYS ensures NormalKey(p, k, Get(obf, k)) == Ok(if k in out then Some(out[k]) else None) {
      InOrder(k);
      CollectAt(p, AWG2_ORDER, obf, k);
    }
    RangesAgain(p, H_KEYS, obf, out);
  }

  lemma {:induction false} LegacyIdempotent(obf: Params)
    requires NormalizeLegacy(obf).Ok?
    ensures NormalizeLegacy(NormalizeLegacy(obf).value) == NormalizeLegacy(obf)
  {
    hide Collect, CrossChecked, NormalKey;
    var out := Collect(Legacy, LEGACY_ORDER, obf).value;
    CrossCheckedFacts(out);
    KeysKnown(Legacy, LEGACY_ORDER, obf);
    CollectAgain(Legacy, LEGACY_ORDER, obf);
  }

  // ---- what a result satisfies ----

  // Two kept keys of a list give two ranges in the same order.
  lemma {:induction false} RangeAt(keys: seq<string>, obf: Params, i: nat)
    returns (a: nat)
    requires i < |keys| && ReadRange(Get(obf, keys[i])).Some? && ReadRange(Get(obf, keys[i])).value.hi > 0
    ensures a < |Ranges(keys, obf)| && Ranges(keys, obf)[a] == ReadRange(Get(obf, keys[i])).value
    ensures a == |Ranges(keys[..i], obf)|
  {
    hide ReadRange, Get;
    var n := |keys| - 1;
    if i == n {
      a := |Ranges(keys[..n], obf)|;
    } else {
      assert keys[..n][..i] == keys[..i];
      a := RangeAt(keys[..n], obf, i);
    }
  }

  lemma {:induction false} RangesGrow(keys: seq<string>, obf: Params, i: nat)
    requires i <= |keys|
    ensures Ranges(keys[..i], obf) <= Ranges(keys, obf)
  {
    hide ReadRange, Get;
    if i == |keys| {
      assert keys[..i] == keys;
    } else {
      assert keys[..|keys| - 1][..i] == keys[..i];
      RangesGrow(keys[..|keys| - 1], obf, i);
    }
  }

  lemma {:induction false} TwoRangesApart(keys: seq<string>, obf: Params, i: nat, j: nat)
    requires i < j < |keys| && PairwiseApart(Ranges(keys, obf))
    requires ReadRange(Get(obf, keys[i])).Some? && ReadRange(Get(obf, keys[i])).value.hi > 0
    requires ReadRange(Get(obf, keys[j])).Some? && ReadRange(Get(obf, keys[j])).value.hi > 0
    ensures !Overlaps(ReadRange(Get(obf, keys[i])).value, ReadRange(Get(obf, keys[j])).value)
  {
    hide ReadRange, Get, Ranges, Overlaps;
    var a := RangeAt(keys, obf, i);
    var b := RangeAt(keys, obf, j);
    assert keys[..j][..i + 1] == keys[..i + 1];
    assert keys[..j][i] == keys[i] && keys[..j][..i] == keys[..i];
    var a' := RangeAt(keys[..j], obf, i);
  }

  ghost predicate InRange(x: int, v: Value) {
    ReadRange(v).Some? && ReadRange(v).value.lo <= x <= ReadRange(v).value.hi
  }

  // A kept H value is a nonempty range below 2^32 that reaches above zero.
  lemma {:induction false} HKept(obf: Params, mtu: Option<int>, k: string)
    requires NormalizeAwg2(obf, mtu).Ok? && k in H_KEYS && k in NormalizeAwg2(obf, mtu).value
    ensures var v := NormalizeAwg2(obf, mtu).value[k];
            && ReadRange(v).Some? && ReadRange(v) == ReadRange(Get(obf, k))
            && var r := ReadRange(v).value;
            r.lo <= r.hi <= H_MAX && r.hi > 0 && v == Str(r.rendered)
  {
    hide Collect, CrossChecked, NormalKey, Ranges, PairwiseApart, ReadRange, Get;
    var out := Collect(Awg2(mtu), AWG2_ORDER, obf).value;
    CrossCheckedFacts(out);
    InOrder(k);
    CollectAt(Awg2(mtu), AWG2_ORDER, obf, k);
    NormalHIs(Awg2(mtu), k, Get(obf, k));
    KeptRangeReadsBack(Get(obf, k));
  }

  /** The H ranges of a result lie below 2^32 and share no value. */
  lemma {:induction false} HRangesDisjoint(obf: Params, mtu: Option<int>, i: nat, j: nat, x: int)
    requires NormalizeAwg2(obf, mtu).Ok? && i < j < |H_KEYS|
    requires H_KEYS[i] in NormalizeAwg2(obf, mtu).value && H_KEYS[j] in NormalizeAwg2(obf, mtu).value
    ensures var out := NormalizeAwg2(obf, mtu).value;
            && !(InRange(x, out[H_KEYS[i]]) && InRange(x, out[H_KEYS[j]]))
            && (InRange(x, out[H_KEYS[i]]) || InRange(x, out[H_KEYS[j]]) ==> x <= H_MAX)
  {
    hide Collect, CrossChecked, Ranges, PairwiseApart, ReadRange, Get;
    HKept(obf, mtu, H_KEYS[i]);
    HKept(obf, mtu, H_KEYS[j]);
    TwoRangesApart(H_KEYS, obf, i, j);
  }

  lemma {:induction false} IntKept(p: Profile, keys: seq<string>, obf: Params, k: string)
    requires Collect(p, keys, obf).Ok? && k in Collect(p, keys, obf).value && k in INT_KEYS
    ensures var v := Collect(p, keys, obf).value[k];
            && v.Int? && v.n > 0
            && match p case Awg2(mtu) => InAwg2Range(k, v.n, mtu) case Legacy => InLegacyRange(k, v.n)
  {
    hide Collect, InAwg2Range, InLegacyRange, ReadInt, Get;
    CollectAt(p, keys, obf, k);
    NotTextOrH(k);
  }

  lemma {:induction false} NotTextOrH(k: string)
    requires k in INT_KEYS
    ensures k !in TEXT_KEYS && k !in H_KEYS
  {
  }

  /** The numbers of a result: positive, within the profile's and the MTU's bounds, with S1 + 56 != S2, Jmin <= Jmax. */
  lemma {:induction false} Awg2Numbers(obf: Params, mtu: Option<int>)
    requires NormalizeAwg2(obf, mtu).Ok?
    ensures var out := NormalizeAwg2(obf, mtu).value;
            && (forall k :: k in out && k in INT_KEYS ==> out[k].Int? && out[k].n > 0)
            && ("Jc" in out ==> out["Jc"].n <= 128)
            && ("Jmin" in out ==> out["Jmin"].n <= 1280) && ("Jmax" in out ==> out["Jmax"].n <= 1280)
            && ("S1" in out ==> out["S1"].n <= BaseMtu(mtu) - 148)
            && ("S2" in out ==> out["S2"].n <= BaseMtu(mtu) - 92)
            && ("S1" in out && "S2" in out ==> out["S1"].n + 56 != out["S2"].n)
            && ("Jmin" in out && "Jmax" in out ==> out["Jmin"].n <= out["Jmax"].n)
  {
    hide Collect, CrossChecked, PairwiseApart, Ranges;
    var out := Collect(Awg2(mtu), AWG2_ORDER, obf).value;
    CrossCheckedFacts(out);
    forall k | k in out && k in INT_KEYS ensures out[k].Int? && out[k].n > 0 && InAwg2Range(k, out[k].n, mtu) {
      IntKept(Awg2(mtu), AWG2_ORDER, obf, k);
    }
    IntKeyNames();
  }

  lemma {:induction false} IntKeyNames()
    ensures "Jc" in INT_KEYS && "Jmin" in INT_KEYS && "Jmax" in INT_KEYS && "S1" in INT_KEYS && "S2" in INT_KEYS
  {
    assert INT_KEYS[0] == "Jc" && INT_KEYS[1] == "Jmin" && INT_KEYS[2] == "Jmax";
    assert INT_KEYS[3] == "S1" && INT_KEYS[4] == "S2";
  }

  // ---- legacy results under AWG 2.0 ----

  predicate LegacyFits(mtu: Option<int>) {
    BaseMtu(mtu) >= 212
  }

  lemma {:induction false} LegacyKeyFits(k: string, v: Value, mtu: Option<int>)
    requires k in LEGACY_ORDER && LegacyFits(mtu) && NormalKey(Legacy, k, v) == Ok(Some(v))
    ensures NormalKey(Awg2(mtu), k, v) == Ok(Some(v))
  {
    hide Strip, ReadRange, ReadInt;
  }

  lemma {:induction false} LegacyKeysKnown(k: string)
    requires k in LEGACY_ORDER
    ensures k in AWG2_ORDER && k !in H_KEYS
  {
  }

  /** Every legacy-normalised set passes the AWG 2.0 normaliser as it is when the MTU is unset, zero or at least 212. */
  lemma {:induction false} LegacyPassesAwg2(obf: Params, mtu: Option<int>)
    requires NormalizeLegacy(obf).Ok? && LegacyFits(mtu)
    ensures NormalizeAwg2(NormalizeLegacy(obf).value, mtu) == Ok(NormalizeLegacy(obf).value)
  {
    hide Collect, CrossChecked, NormalKey, LegacyFits;
    var out := Collect(Legacy, LEGACY_ORDER, obf).value;
    CrossCheckedFacts(out);
    forall k | k in out
      ensures k in AWG2_ORDER && k !in H_KEYS && NormalKey(Awg2(mtu), k, out[k]) == Ok(Some(out[k]))
    {
      CollectAt(Legacy, LEGACY_ORDER, obf, k);
      NormalKeyAgain(Legacy, k, Get(obf, k));
      LegacyKeyFits(k, out[k], mtu);
      LegacyKeysKnown(k);
    }
    CollectNormal(Awg2(mtu), AWG2_ORDER, out);
    assert Collect(Awg2(mtu), AWG2_ORDER, out).value == out;
    NoRanges(H_KEYS, out);
  }

  lemma {:induction false} NoRanges(keys: seq<string>, obf: Params)
    requires forall k :: k in keys ==> k !in obf
    ensures Ranges(keys, obf) == []
  {
    if keys != [] {
      NoRanges(keys[..|keys| - 1], obf);
    }
  }

  /** And only then: a smaller MTU rejects a legacy-normalised S1. */
  lemma {:induction false} LegacyPassesExactlyWhen(mtu: Option<int>)
    ensures (forall obf :: NormalizeLegacy(obf).Ok? ==>
               NormalizeAwg2(NormalizeLegacy(obf).value, mtu) == Ok(NormalizeLegacy(obf).value))
            <==> mtu.None? || mtu.value == 0 || mtu.value >= 212
  {
    hide NormalizeLegacy, NormalizeAwg2;
    if LegacyFits(mtu) {
      forall obf | NormalizeLegacy(obf).Ok?
        ensures NormalizeAwg2(NormalizeLegacy(obf).value, mtu) == Ok(NormalizeLegacy(obf).value)
      {
        LegacyPassesAwg2(obf, mtu);
      }
    } else {
      TooSmall(mtu);
    }
  }

  lemma {:induction false} TooSmall(mtu: Option<int>)
    requires !LegacyFits(mtu)
    ensures NormalizeLegacy(map["S1" := Int(64)]) == Ok(map["S1" := Int(64)])
    ensures NormalizeAwg2(map["S1" := Int(64)], mtu).Err?
  {
    hide Collect;
    var obf: Params := map["S1" := Int(64)];
    assert LEGACY_ORDER[3] == "S1" && AWG2_ORDER[3] == "S1";
    forall k | k in LEGACY_ORDER && k in obf ensures NormalKey(Legacy, k, obf[k]) == Ok(Some(obf[k])) {
      NotTextOrH("S1") by {
        IntKeyNames();
      }
    }
    CollectNormal(Legacy, LEGACY_ORDER, obf);
    assert Collect(Legacy, LEGACY_ORDER, obf).value == obf;
    assert NormalKey(Awg2(mtu), "S1", Get(obf, "S1")).Err? by {
      IntKeyNames();
      NotTextOrH("S1");
    }
    if Collect(Awg2(mtu), AWG2_ORDER, obf).Ok? {
      CollectAt(Awg2(mtu), AWG2_ORDER, obf, "S1");
    }
  }
}
