/** The AmneziaWG obfuscation parameters: the AWG 2.0 and the legacy normaliser. */
module Obfuscation {
  import opened Text
  import opened Numerals

  // A JSON-like value; Float carries the integer int() truncates it to.
  datatype Value = Null | Bool(b: bool) | Int(n: int) | Float(trunc: int) | Str(s: string) | Other
  type Params = map<string, Value>

  datatype ObfError =
    | UnsupportedKey
    | NotInteger(key: string)
    | OutOfRange(key: string)
    | NotText(key: string)
    | NotIntegerOrRange(key: string)
    | BadRange(key: string)
    | Overlap
    | KernelS1S2
    | JminOverJmax

  const INT_KEYS: seq<string> := ["Jc", "Jmin", "Jmax", "S1", "S2", "S3", "S4"]
  const LEGACY_INT_KEYS: seq<string> := ["Jc", "Jmin", "Jmax", "S1", "S2"]
  const TEXT_KEYS: seq<string> := ["I1", "I2", "I3", "I4", "I5"]
  const H_KEYS: seq<string> := ["H1", "H2", "H3", "H4"]
  const H_MAX := 4294967295

  function Get(obf: Params, k: string): Value {
    if k in obf then obf[k] else Null
  }

  // ---- reading one value ----

  function DropDashes(s: string): string {
    if s != "" && s[0] == '-' then DropDashes(s[1..]) else s
  }

  function ReadInt(v: Value): Option<int> {
    match v
    case Int(n) => Some(n)
    case Float(n) => Some(n)
    case Str(s) => if IsDigits(DropDashes(Strip(s))) then ParseInt(s) else None
    case _ => None
  }

  datatype Range = Range(lo: int, hi: int, rendered: string)

  // An integer, its text, or `lo-hi` with blanks around the bounds.
  function ReadRange(v: Value): Option<Range> {
    match v
    case Int(n) => Some(Range(n, n, IntText(n)))
    case Str(s) => RangeOfText(Strip(s))
    case _ => None
  }

  function RangeOfText(t: string): Option<Range> {
    if IsDigits(DropDashes(t)) then
      (match ParseInt(t) case None => None case Some(n) => Some(Range(n, n, IntText(n))))
    else if '-' in t then
      var i := IndexOf(t, '-');
      RangeOfBounds(Strip(t[..i]), Strip(t[i + 1..]))
    else None
  }

  function RangeOfBounds(left: string, right: string): Option<Range> {
    if IsDigits(left) && IsDigits(right) then
      match (ParseNat(left), ParseNat(right))
      case (Some(lo), Some(hi)) => Some(Range(lo, hi, NatText(lo) + "-" + NatText(hi)))
      case _ => None
    else None
  }

  // ---- one key; None as the value means the key is omitted ----

  function BaseMtu(mtu: Option<int>): int {
    if mtu.None? || mtu.value == 0 then 1280 else mtu.value
  }

  function AtLeastZero(n: int): nat {
    if n < 0 then 0 else n
  }

  predicate InAwg2Range(k: string, n: int, mtu: Option<int>) {
    if k == "Jc" then n <= 128
    else if k == "Jmin" || k == "Jmax" then n <= 1280
    else if k == "S1" then n <= AtLeastZero(BaseMtu(mtu) - 148)
    else if k == "S2" then n <= AtLeastZero(BaseMtu(mtu) - 92)
    else true
  }

  predicate InLegacyRange(k: string, n: int) {
    if k == "Jc" then n <= 10
    else if k == "Jmin" || k == "Jmax" then 64 <= n <= 1024
    else n <= 64
  }

  function NormalInt(k: string, v: Value, inRange: int -> bool): Result<Option<Value>, ObfError> {
    if v.Null? then Ok(None)
    else
      match ReadInt(v)
      case None => Err(NotInteger(k))
      case Some(n) => if n <= 0 then Ok(None) else if !inRange(n) then Err(OutOfRange(k)) else Ok(Some(Int(n)))
  }

  function NormalText(k: string, v: Value): Result<Option<Value>, ObfError> {
    if v.Null? then Ok(None)
    else if !v.Str? || Strip(v.s) == "" then Err(NotText(k))
    else Ok(Some(Str(Strip(v.s))))
  }

  function NormalH(k: string, v: Value): Result<Option<Value>, ObfError> {
    if v.Null? then Ok(None)
    else
      match ReadRange(v)
      case None => Err(NotIntegerOrRange(k))
      case Some(r) =>
        if r.hi <= 0 then Ok(None)
        else if r.lo > H_MAX || r.hi > H_MAX then Err(OutOfRange(k))
        else if r.lo > r.hi then Err(BadRange(k))
        else Ok(Some(Str(r.rendered)))
  }

  datatype Profile = Awg2(mtu: Option<int>) | Legacy

  function NormalKey(p: Profile, k: string, v: Value): Result<Option<Value>, ObfError> {
    if k in TEXT_KEYS then NormalText(k, v)
    else if k in H_KEYS then NormalH(k, v)
    else
      match p
      case Awg2(mtu) => NormalInt(k, v, n => InAwg2Range(k, n, mtu))
      case Legacy => NormalInt(k, v, n => InLegacyRange(k, n))
  }

  // ---- all keys ----

  // The keys of a list taken in turn; the first failure is reported.
  function Collect(p: Profile, keys: seq<string>, obf: Params): Result<Params, ObfError> {
    if keys == [] then Ok(map[])
    else
      var k := keys[|keys| - 1];
      match Collect(p, keys[..|keys| - 1], obf)
      case Err(e) => Err(e)
      case Ok(out) =>
        match NormalKey(p, k, Get(obf, k))
        case Err(e) => Err(e)
        case Ok(None) => Ok(out)
        case Ok(Some(v)) => Ok(out[k := v])
  }

  predicate Overlaps(a: Range, b: Range) {
    (if a.lo > b.lo then a.lo else b.lo) <= (if a.hi < b.hi then a.hi else b.hi)
  }

  // The ranges of the H keys that are kept, in order.
  function Ranges(keys: seq<string>, obf: Params): seq<Range> {
    if keys == [] then []
    else
      var front, r := Ranges(keys[..|keys| - 1], obf), ReadRange(Get(obf, keys[|keys| - 1]));
      if r.Some? && r.value.hi > 0 then front + [r.value] else front
  }

  predicate PairwiseApart(rs: seq<Range>) {
    forall i, j :: 0 <= i < j < |rs| ==> !Overlaps(rs[i], rs[j])
  }

  function CrossChecked(out: Params): Result<Params, ObfError> {
    if "S1" in out && "S2" in out && out["S1"].Int? && out["S2"].Int? && out["S1"].n + 56 == out["S2"].n then
      Err(KernelS1S2)
    else if "Jmin" in out && "Jmax" in out && out["Jmin"].Int? && out["Jmax"].Int? && out["Jmin"].n > out["Jmax"].n then
      Err(JminOverJmax)
    else Ok(out)
  }

  const AWG2_ORDER: seq<string> := INT_KEYS + TEXT_KEYS + H_KEYS
  const LEGACY_ORDER: seq<string> := LEGACY_INT_KEYS + TEXT_KEYS

  function NormalizeAwg2(obf: Params, mtu: Option<int>): Result<Params, ObfError> {
    if exists k :: k in obf && k !in AWG2_ORDER then Err(UnsupportedKey)
    else
      match Collect(Awg2(mtu), AWG2_ORDER, obf)
      case Err(e) => Err(e)
      case Ok(out) => if PairwiseApart(Ranges(H_KEYS, obf)) then CrossChecked(out) else Err(Overlap)
  }

  // An H key that the legacy profile tolerates because it sets nothing.
  predicate IdleH(v: Value) {
    match v
    case Null => true
    case Bool(b) => !b
    case Int(n) => n <= 0
    case Str(s) => Strip(s) == "" || Strip(s) == "0"
    case _ => false
  }

  function NormalizeLegacy(obf: Params): Result<Params, ObfError> {
    if exists k :: k in obf && k !in LEGACY_ORDER && !(k in H_KEYS && IdleH(obf[k])) then Err(UnsupportedKey)
    else
      match Collect(Legacy, LEGACY_ORDER, obf)
      case Err(e) => Err(e)
      case Ok(out) => CrossChecked(out)
  }

  // ---- the loops ----

  // One loop of a normaliser: the keys of a group, added to what the earlier groups left.
  method CollectGroup(p: Profile, done: seq<string>, keys: seq<string>, obf: Params, before: Params)
    returns (r: Result<Params, ObfError>)
    requires Collect(p, done, obf) == Ok(before)
    ensures r == Collect(p, done + keys, obf)
  {
    hide NormalKey, Get, Collect;
    var out := before;
    assert done + keys[..0] == done;
    for i := 0 to |keys|
      invariant Collect(p, done + keys[..i], obf) == Ok(out)
    {
      assert (done + keys)[..|done| + i] == done + keys[..i] && (done + keys)[|done| + i] == keys[i];
      CollectNext(p, done + keys, obf, |done| + i);
      assert (done + keys)[..|done| + i + 1] == done + keys[..i + 1];
      match NormalKey(p, keys[i], Get(obf, keys[i]))
      case Err(e) =>
        return Err(e);
      case Ok(None) =>
      case Ok(Some(v)) =>
        out := out[keys[i] := v];
    }
    assert keys[..|keys|] == keys;
    r := Ok(out);
  }

  // The n-th key in turn: its failure is the whole list's, else it adds what it keeps.
  lemma {:induction false} CollectNext(p: Profile, keys: seq<string>, obf: Params, n: nat)
    requires n < |keys| && Collect(p, keys[..n], obf).Ok?
    ensures match NormalKey(p, keys[n], Get(obf, keys[n]))
            case Err(e) => Collect(p, keys, obf) == Err(e)
            case Ok(None) => Collect(p, keys[..n + 1], obf) == Collect(p, keys[..n], obf)
            case Ok(Some(v)) => Collect(p, keys[..n + 1], obf) == Ok(Collect(p, keys[..n], obf).value[keys[n] := v])
  {
    hide NormalKey, Get;
    assert keys[..n + 1][..n] == keys[..n] && keys[..n + 1][n] == keys[n];
    if NormalKey(p, keys[n], Get(obf, keys[n])).Err? {
      FirstError(p, keys, obf, n + 1);
    }
  }

  lemma {:induction false} FirstError(p: Profile, keys: seq<string>, obf: Params, n: nat)
    requires n <= |keys| && Collect(p, keys[..n], obf).Err?
    ensures Collect(p, keys, obf) == Collect(p, keys[..n], obf)
  {
    hide NormalKey;
    if n == |keys| {
      assert keys[..n] == keys;
    } else {
      assert keys[..|keys| - 1][..n] == keys[..n];
      FirstError(p, keys[..|keys| - 1], obf, n);
    }
  }

  // Builds the kept ranges, then compares every pair.
  method RangesApart(obf: Params) returns (apart: bool)
    ensures apart == PairwiseApart(Ranges(H_KEYS, obf))
  {
    hide ReadRange;
    var rs: seq<Range> := [];
    for i := 0 to |H_KEYS|
      invariant rs == Ranges(H_KEYS[..i], obf)
    {
      assert H_KEYS[..i + 1][..i] == H_KEYS[..i];
      var r := ReadRange(Get(obf, H_KEYS[i]));
      if r.Some? && r.value.hi > 0 {
        rs := rs + [r.value];
      }
    }
    assert H_KEYS[..|H_KEYS|] == H_KEYS;
    for i := 0 to |rs|
      invariant forall a, b :: 0 <= a < i && a < b < |rs| ==> !Overlaps(rs[a], rs[b])
    {
      for j := i + 1 to |rs|
        invariant forall b :: i < b < j ==> !Overlaps(rs[i], rs[b])
      {
        if Overlaps(rs[i], rs[j]) {
          return false;
        }
      }
    }
    apart := true;
  }

  /** AWG 2.0: integers, texts and H ranges in turn, then the checks across keys. */
  method Awg2Normaliser(obf: Params, mtu: Option<int>) returns (r: Result<Params, ObfError>)
    ensures r == NormalizeAwg2(obf, mtu)
  {
    hide Collect, PairwiseApart, Ranges, CrossChecked;
    if exists k :: k in obf && k !in AWG2_ORDER {
      return Err(UnsupportedKey);
    }
    EmptyCollect(Awg2(mtu), obf);
    r := CollectGroup(Awg2(mtu), [], INT_KEYS, obf, map[]);
    assert [] + INT_KEYS == INT_KEYS;
    if r.Err? {
      FirstErrorIn(Awg2(mtu), INT_KEYS, TEXT_KEYS + H_KEYS, obf);
      assert INT_KEYS + (TEXT_KEYS + H_KEYS) == AWG2_ORDER;
      return;
    }
    r := CollectGroup(Awg2(mtu), INT_KEYS, TEXT_KEYS, obf, r.value);
    if r.Err? {
      FirstErrorIn(Awg2(mtu), INT_KEYS + TEXT_KEYS, H_KEYS, obf);
      return;
    }
    r := CollectGroup(Awg2(mtu), INT_KEYS + TEXT_KEYS, H_KEYS, obf, r.value);
    if r.Err? {
      return;
    }
    var apart := RangesApart(obf);
    r := if apart then CrossChecked(r.value) else Err(Overlap);
  }

  method LegacyNormaliser(obf: Params) returns (r: Result<Params, ObfError>)
    ensures r == NormalizeLegacy(obf)
  {
    hide Collect, CrossChecked, IdleH;
    if exists k :: k in obf && k !in LEGACY_ORDER && !(k in H_KEYS && IdleH(obf[k])) {
      return Err(UnsupportedKey);
    }
    EmptyCollect(Legacy, obf);
    r := CollectGroup(Legacy, [], LEGACY_INT_KEYS, obf, map[]);
    assert [] + LEGACY_INT_KEYS == LEGACY_INT_KEYS;
    if r.Err? {
      FirstErrorIn(Legacy, LEGACY_INT_KEYS, TEXT_KEYS, obf);
      return;
    }
    r := CollectGroup(Legacy, LEGACY_INT_KEYS, TEXT_KEYS, obf, r.value);
    if r.Ok? {
      r := CrossChecked(r.value);
    }
  }

  lemma {:induction false} EmptyCollect(p: Profile, obf: Params)
    ensures Collect(p, [], obf) == Ok(map[])
  {
  }

  lemma {:induction false} FirstErrorIn(p: Profile, done: seq<string>, rest: seq<string>, obf: Params)
    requires Collect(p, done, obf).Err?
    ensures Collect(p, done + rest, obf) == Collect(p, done, obf)
  {
    hide Collect;
    assert (done + rest)[..|done|] == done;
    FirstError(p, done + rest, obf, |done|);
  }
}
