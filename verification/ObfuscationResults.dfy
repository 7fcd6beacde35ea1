/** The results of the normalisers, exactly, in terms of the values they are given. */
module ObfuscationResults {
  import opened Text
  import opened Numerals
  import opened Obfuscation
  import opened ObfuscationProofs
  import opened ObfuscationNormalForm
  import opened ObfuscationValues

  // ---- the keys ----

  predicate NumberKey(k: string) {
    k == "Jc" || k == "Jmin" || k == "Jmax" || k == "S1" || k == "S2" || k == "S3" || k == "S4"
  }

  predicate TextKey(k: string) {
    k == "I1" || k == "I2" || k == "I3" || k == "I4" || k == "I5"
  }

  predicate HeaderKey(k: string) {
    k == "H1" || k == "H2" || k == "H3" || k == "H4"
  }

  lemma {:induction false} KeyLists(k: string)
    ensures k in INT_KEYS <==> NumberKey(k)
    ensures k in TEXT_KEYS <==> TextKey(k)
    ensures k in H_KEYS <==> HeaderKey(k)
  {
  }

  lemma {:induction false} OrderList(k: string)
    ensures k in AWG2_ORDER <==> (k in INT_KEYS || k in TEXT_KEYS || k in H_KEYS)
  {
  }

  lemma {:induction false} LegacyList(k: string)
    ensures k in LEGACY_INT_KEYS <==> (NumberKey(k) && k != "S3" && k != "S4")
    ensures k in LEGACY_ORDER <==> (k in LEGACY_INT_KEYS || k in TEXT_KEYS)
  {
  }

  lemma {:induction false} KeysApart(k: string)
    ensures !(NumberKey(k) && TextKey(k)) && !(NumberKey(k) && HeaderKey(k)) && !(TextKey(k) && HeaderKey(k))
  {
  }

  // ---- what is kept of one key ----

  // The value of a key, Null when it is absent.
  function ValueOf(obf: Params, k: string): Value {
    if k in obf then obf[k] else Null
  }

  // A number is kept when it is positive.
  ghost predicate KeepsNumber(v: Value, out: Option<Value>) {
    if v.Null? then out == None
    else exists n :: SaysInt(v, n) && out == if n > 0 then Some(Int(n)) else None
  }

  // A text is kept without the blanks around it.
  ghost predicate KeepsText(v: Value, out: Option<Value>) {
    if v.Null? then out == None else v.Str? && !Blank(v.s) && out == Some(Str(Strip(v.s)))
  }

  // A number or a range is kept in its canonical text when it reaches above zero.
  ghost predicate KeepsHeader(v: Value, out: Option<Value>) {
    if v.Null? then out == None
    else
      || (!v.Float? && exists n :: SaysInt(v, n) && out == if n > 0 then Some(Str(IntText(n))) else None)
      || (exists lo: nat, hi: nat :: SaysBounds(v, lo, hi) &&
            out == if hi > 0 then Some(Str(NatText(lo) + "-" + NatText(hi))) else None)
  }

  function At(out: Params, k: string): Option<Value> {
    if k in out then Some(out[k]) else None
  }

  lemma {:induction false} NumberKept(k: string, v: Value, mtu: Option<int>, out: Option<Value>)
    requires NumberKey(k)
    ensures NormalKey(Awg2(mtu), k, v) == Ok(out) <==>
              (KeepsNumber(v, out) && (out.Some? ==> InAwg2Range(k, out.value.n, mtu)))
    ensures NormalKey(Legacy, k, v) == Ok(out) <==>
              (KeepsNumber(v, out) && (out.Some? ==> InLegacyRange(k, out.value.n)))
  {
    hide ReadInt, SaysInt, InAwg2Range, InLegacyRange, NumberKey;
    KeyLists(k);
    KeysApart(k);
    forall n ensures ReadInt(v) == Some(n) <==> SaysInt(v, n) {
      ReadIntExactly(v, n);
    }
    NotNull(v);
  }

  lemma {:induction false} NotNull(v: Value)
    ensures v.Null? ==> ReadInt(v) == None && ReadRange(v) == None
  {
  }

  lemma {:induction false} TextKept(p: Profile, k: string, v: Value, out: Option<Value>)
    requires TextKey(k)
    ensures NormalKey(p, k, v) == Ok(out) <==> KeepsText(v, out)
  {
    hide Strip, TextKey;
    KeyLists(k);
    if v.Str? {
      StripEmptyIsBlank(v.s);
    }
  }

  lemma {:induction false} HeaderKept(p: Profile, k: string, v: Value, out: Option<Value>)
    requires HeaderKey(k)
    ensures NormalKey(p, k, v) == Ok(out) ==> KeepsHeader(v, out)
    ensures KeepsHeader(v, out) && (out.Some? ==> HText(out.value)) ==> NormalKey(p, k, v) == Ok(out)
  {
    hide ReadRange, SaysInt, SaysBounds, IntText, NatText, HText, HeaderKey, TextKey;
    KeyLists(k);
    KeysApart(k);
    NotNull(v);
    if NormalKey(p, k, v) == Ok(out) && !v.Null? {
      ReadRangeExactly(v, ReadRange(v).value);
    }
    if !v.Null? && KeepsHeader(v, out) && (out.Some? ==> HText(out.value)) {
      HeaderRead(k, v, out);
    }
  }

  lemma {:induction false} HeaderRead(k: string, v: Value, out: Option<Value>)
    requires !v.Null? && KeepsHeader(v, out) && (out.Some? ==> HText(out.value))
    ensures NormalH(k, v) == Ok(out)
  {
    hide ReadRange, SaysInt, SaysBounds, IntText, NatText, HText;
    var r: Range;
    if !v.Float? && exists n :: SaysInt(v, n) && out == if n > 0 then Some(Str(IntText(n))) else None {
      var n :| SaysInt(v, n) && out == if n > 0 then Some(Str(IntText(n))) else None;
      r := Range(n, n, IntText(n));
    } else {
      var lo: nat, hi: nat :|
        SaysBounds(v, lo, hi) && out == if hi > 0 then Some(Str(NatText(lo) + "-" + NatText(hi))) else None;
      r := Range(lo, hi, NatText(lo) + "-" + NatText(hi));
    }
    ReadRangeExactly(v, r);
    if out.Some? {
      KeptRangeReadsBack(v);
      HTextReads(out.value);
    }
  }

  // ---- all keys ----

  ghost predicate KeepsKey(obf: Params, out: Params, k: string) {
    && (NumberKey(k) ==> KeepsNumber(ValueOf(obf, k), At(out, k)))
    && (TextKey(k) ==> KeepsText(ValueOf(obf, k), At(out, k)))
    && (HeaderKey(k) ==> KeepsHeader(ValueOf(obf, k), At(out, k)))
  }

  ghost predicate KnownKey(k: string) {
    NumberKey(k) || TextKey(k) || HeaderKey(k)
  }

  lemma {:induction false} CollectFrom(p: Profile, keys: seq<string>, obf: Params, out: Params)
    requires forall k :: k in keys ==> NormalKey(p, k, Get(obf, k)) == Ok(At(out, k))
    ensures Collect(p, keys, obf).Ok?
    ensures forall k :: k in Collect(p, keys, obf).value <==> (k in keys && k in out)
    ensures forall k :: k in Collect(p, keys, obf).value ==> Collect(p, keys, obf).value[k] == out[k]
  {
    hide NormalKey, Get;
    if keys != [] {
      var front, k := keys[..|keys| - 1], keys[|keys| - 1];
      assert keys == front + [k];
      CollectFrom(p, front, obf, out);
    }
  }

  lemma {:induction false} SameValue(obf: Params, k: string)
    ensures Get(obf, k) == ValueOf(obf, k)
  {
  }

  /** Every AWG 2.0 result holds, for each key, exactly what its value says: the number itself when positive, the
      stripped text, the canonical text of the same range; and nothing else. */
  lemma {:induction false} Awg2Keeps(obf: Params, mtu: Option<int>, out: Params, k: string)
    requires NormalizeAwg2(obf, mtu) == Ok(out)
    ensures KeepsKey(obf, out, k)
    ensures k in obf || k in out ==> KnownKey(k)
  {
    hide Collect, CrossChecked, NormalKey, Ranges, PairwiseApart, KeepsNumber, KeepsText, KeepsHeader;
    hide NumberKey, TextKey, HeaderKey, ValueOf, Get;
    CrossCheckedFacts(Collect(Awg2(mtu), AWG2_ORDER, obf).value);
    KeyLists(k);
    OrderList(k);
    CollectAt(Awg2(mtu), AWG2_ORDER, obf, k);
    SameValue(obf, k);
    if NumberKey(k) {
      NumberKept(k, Get(obf, k), mtu, At(out, k));
    } else if TextKey(k) {
      TextKept(Awg2(mtu), k, Get(obf, k), At(out, k));
    } else if HeaderKey(k) {
      HeaderKept(Awg2(mtu), k, Get(obf, k), At(out, k));
    }
    KeysApart(k);
  }

  /** The AWG 2.0 normaliser, exactly: it returns out if and only if all keys are known, each is kept as its value says,
      and out is in normal form. */
  lemma {:induction false} Awg2Exactly(obf: Params, mtu: Option<int>, out: Params)
    ensures NormalizeAwg2(obf, mtu) == Ok(out) <==>
              ((forall k :: k in obf ==> KnownKey(k)) && (forall k :: KeepsKey(obf, out, k)) && NormalForm(out, mtu))
  {
    hide NormalizeAwg2, NormalForm, KeepsKey, KnownKey;
    if NormalizeAwg2(obf, mtu) == Ok(out) {
      ResultsAreNormalForms(out, mtu);
      forall k ensures KeepsKey(obf, out, k) && (k in obf ==> KnownKey(k)) {
        Awg2Keeps(obf, mtu, out, k);
      }
    }
    if (forall k :: k in obf ==> KnownKey(k)) && (forall k :: KeepsKey(obf, out, k)) && NormalForm(out, mtu) {
      Awg2Returns(obf, mtu, out);
    }
  }

  lemma {:induction false} Awg2KeyReturns(obf: Params, mtu: Option<int>, out: Params, k: string)
    requires KeepsKey(obf, out, k) && NormalForm(out, mtu) && k in AWG2_ORDER
    ensures NormalKey(Awg2(mtu), k, Get(obf, k)) == Ok(At(out, k))
  {
    hide NormalKey, KeepsNumber, KeepsText, KeepsHeader, NumberKey, TextKey, HeaderKey, ValueOf, Get, HText;
    hide InAwg2Range;
    hide BoundsKept, HDisjoint;
    KeyLists(k);
    OrderList(k);
    KeysApart(k);
    SameValue(obf, k);
    if NumberKey(k) {
      if k in out {
        InBounds(out, mtu, k);
      }
      NumberKept(k, Get(obf, k), mtu, At(out, k));
    } else if TextKey(k) {
      TextKept(Awg2(mtu), k, Get(obf, k), At(out, k));
    } else {
      HeaderKept(Awg2(mtu), k, Get(obf, k), At(out, k));
    }
  }

  lemma {:induction false} Awg2Returns(obf: Params, mtu: Option<int>, out: Params)
    requires (forall k :: k in obf ==> KnownKey(k)) && (forall k :: KeepsKey(obf, out, k)) && NormalForm(out, mtu)
    ensures NormalizeAwg2(obf, mtu) == Ok(out)
  {
    hide Collect, CrossChecked, NormalKey, Ranges, PairwiseApart, KeepsKey, NormalValue, BoundsKept, HDisjoint;
    hide NumberKey, TextKey, HeaderKey, Get;
    forall k | k in obf ensures k in AWG2_ORDER {
      KeyLists(k);
      OrderList(k);
    }
    forall k | k in AWG2_ORDER ensures NormalKey(Awg2(mtu), k, Get(obf, k)) == Ok(At(out, k)) {
      Awg2KeyReturns(obf, mtu, out, k);
    }
    CollectFrom(Awg2(mtu), AWG2_ORDER, obf, out);
    assert Collect(Awg2(mtu), AWG2_ORDER, obf).value == out;
    forall k | k in H_KEYS ensures NormalKey(Awg2(mtu), k, Get(obf, k)) == Ok(if k in out then Some(out[k]) else None) {
      OrderList(k);
    }
    RangesAgain(Awg2(mtu), H_KEYS, obf, out);
    NormalFormStays(out, mtu);
    CrossCheckedFacts(Collect(Awg2(mtu), AWG2_ORDER, out).value);
    CollectNormalOf(out, mtu);
  }

  // A set in normal form passes the checks across keys as it is.
  lemma {:induction false} CollectNormalOf(out: Params, mtu: Option<int>)
    requires NormalizeAwg2(out, mtu) == Ok(out)
    ensures PairwiseApart(Ranges(H_KEYS, out)) && CrossChecked(out) == Ok(out)
  {
    hide Collect, Ranges, PairwiseApart;
  }

  // ---- legacy ----

  // The keys a legacy set may hold: its own, and H keys that set nothing.
  ghost predicate LegacyKey(k: string, v: Value) {
    || (NumberKey(k) && k != "S3" && k != "S4") || TextKey(k)
    || (HeaderKey(k) && SetsNothing(v))
  }

  ghost predicate SetsNothing(v: Value) {
    match v
    case Null => true
    case Bool(b) => !b
    case Int(n) => n <= 0
    case Str(s) => Blank(s) || Strip(s) == "0"
    case _ => false
  }

  ghost predicate LegacyKeeps(obf: Params, out: Params, k: string) {
    && (NumberKey(k) && k != "S3" && k != "S4" ==> KeepsNumber(ValueOf(obf, k), At(out, k)))
    && (TextKey(k) ==> KeepsText(ValueOf(obf, k), At(out, k)))
    && (k in out ==> (NumberKey(k) && k != "S3" && k != "S4") || TextKey(k))
  }

  ghost predicate LegacyBounds(out: Params) {
    && ("Jc" in out ==> out["Jc"].Int? && out["Jc"].n <= 10)
    && ("Jmin" in out ==> out["Jmin"].Int? && 64 <= out["Jmin"].n <= 1024)
    && ("Jmax" in out ==> out["Jmax"].Int? && 64 <= out["Jmax"].n <= 1024)
    && ("S1" in out ==> out["S1"].Int? && out["S1"].n <= 64)
    && ("S2" in out ==> out["S2"].Int? && out["S2"].n <= 64)
    && ("S1" in out && "S2" in out ==> out["S1"].n + 56 != out["S2"].n)
    && ("Jmin" in out && "Jmax" in out ==> out["Jmin"].n <= out["Jmax"].n)
  }

  lemma {:induction false} IdleExactly(v: Value)
    ensures IdleH(v) <==> SetsNothing(v)
  {
    hide Strip;
    if v.Str? {
      StripEmptyIsBlank(v.s);
    }
  }

  lemma {:induction false} LegacyKeyExactly(k: string, v: Value)
    ensures LegacyKey(k, v) <==> (k in LEGACY_ORDER || (k in H_KEYS && IdleH(v)))
  {
    hide IdleH, SetsNothing, NumberKey, TextKey, HeaderKey;
    KeyLists(k);
    LegacyList(k);
    IdleExactly(v);
  }

  lemma {:induction false} LegacyKeyKept(obf: Params, out: Params, k: string)
    requires k in LEGACY_ORDER
    ensures NormalKey(Legacy, k, Get(obf, k)) == Ok(At(out, k)) <==>
              (LegacyKeepsValue(obf, out, k) &&
               (NumberKey(k) && k in out ==> out[k].Int? && InLegacyRange(k, out[k].n)))
  {
    hide NormalKey, KeepsText, NumberKey, TextKey, HeaderKey, ValueOf, Get, InLegacyRange, SaysInt;
    KeyLists(k);
    LegacyList(k);
    KeysApart(k);
    SameValue(obf, k);
    if NumberKey(k) {
      NumberKept(k, Get(obf, k), None, At(out, k));
    } else {
      TextKept(Legacy, k, Get(obf, k), At(out, k));
    }
  }

  ghost predicate LegacyKeepsValue(obf: Params, out: Params, k: string) {
    && (NumberKey(k) ==> KeepsNumber(ValueOf(obf, k), At(out, k)))
    && (TextKey(k) ==> KeepsText(ValueOf(obf, k), At(out, k)))
  }

  lemma {:induction false} LegacyRanges(out: Params)
    requires forall k :: k in out && NumberKey(k) ==> k in LEGACY_INT_KEYS && out[k].Int?
    ensures LegacyBounds(out) <==>
              ((forall k :: k in out && NumberKey(k) ==> InLegacyRange(k, out[k].n)) && CrossChecked(out) == Ok(out))
  {
    LegacyNames(out);
  }

  lemma {:induction false} LegacyNames(out: Params)
    ensures NumberKey("Jc") && NumberKey("Jmin") && NumberKey("Jmax") && NumberKey("S1") && NumberKey("S2")
  {
  }

  /** The legacy normaliser, exactly: it returns out if and only if every key is one of its own or an H key that sets
      nothing, each of its keys is kept as its value says and nothing else is, and out is within its bounds. */
  lemma {:induction false} LegacyExactly(obf: Params, out: Params)
    ensures NormalizeLegacy(obf) == Ok(out) <==>
              ((forall k :: k in obf ==> LegacyKey(k, obf[k])) && (forall k :: LegacyKeeps(obf, out, k)) &&
               LegacyBounds(out))
  {
    hide NormalizeLegacy, LegacyKey, LegacyKeeps, LegacyBounds;
    if NormalizeLegacy(obf) == Ok(out) {
      LegacyReturned(obf, out);
    }
    if (forall k :: k in obf ==> LegacyKey(k, obf[k])) && (forall k :: LegacyKeeps(obf, out, k)) && LegacyBounds(out) {
      LegacyReturns(obf, out);
    }
  }

  lemma {:induction false} LegacyReturned(obf: Params, out: Params)
    requires NormalizeLegacy(obf) == Ok(out)
    ensures (forall k :: k in obf ==> LegacyKey(k, obf[k])) && (forall k :: LegacyKeeps(obf, out, k))
    ensures LegacyBounds(out)
  {
    hide Collect, CrossChecked, NormalKey, KeepsNumber, KeepsText, NumberKey, TextKey, HeaderKey, ValueOf, Get, IdleH;
    hide InLegacyRange, LegacyKey, LegacyBounds;
    CrossCheckedFacts(Collect(Legacy, LEGACY_ORDER, obf).value);
    forall k | k in obf ensures LegacyKey(k, obf[k]) {
      LegacyKeyExactly(k, obf[k]);
    }
    forall k
      ensures LegacyKeeps(obf, out, k)
      ensures k in out && NumberKey(k) ==> k in LEGACY_INT_KEYS && out[k].Int? && InLegacyRange(k, out[k].n)
    {
      KeyLists(k);
      LegacyList(k);
      KeysApart(k);
      CollectAt(Legacy, LEGACY_ORDER, obf, k);
      if k in LEGACY_ORDER {
        LegacyKeyKept(obf, out, k);
      }
    }
    LegacyRanges(out);
  }

  lemma {:induction false} LegacyReturns(obf: Params, out: Params)
    requires (forall k :: k in obf ==> LegacyKey(k, obf[k])) && (forall k :: LegacyKeeps(obf, out, k))
    requires LegacyBounds(out)
    ensures NormalizeLegacy(obf) == Ok(out)
  {
    hide Collect, CrossChecked, NormalKey, KeepsText, NumberKey, TextKey, HeaderKey, ValueOf, Get, IdleH, SaysInt;
    hide InLegacyRange, LegacyKey, LegacyBounds;
    forall k | k in obf ensures k in LEGACY_ORDER || (k in H_KEYS && IdleH(obf[k])) {
      LegacyKeyExactly(k, obf[k]);
    }
    forall k | k in out ensures k in LEGACY_ORDER && (NumberKey(k) ==> k in LEGACY_INT_KEYS && out[k].Int?) {
      assert LegacyKeeps(obf, out, k);
      KeyLists(k);
      LegacyList(k);
    }
    LegacyRanges(out);
    forall k | k in LEGACY_ORDER ensures NormalKey(Legacy, k, Get(obf, k)) == Ok(At(out, k)) {
      assert LegacyKeeps(obf, out, k);
      KeyLists(k);
      LegacyList(k);
      LegacyKeyKept(obf, out, k);
    }
    CollectFrom(Legacy, LEGACY_ORDER, obf, out);
    assert Collect(Legacy, LEGACY_ORDER, obf).value == out;
  }
}
