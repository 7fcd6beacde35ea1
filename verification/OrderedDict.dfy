/** A Python dict with text keys: a map together with the order in which its keys were first inserted. */
module OrderedDict {

  ghost predicate Distinct<T>(s: seq<T>) {
    forall i, j :: 0 <= i < j < |s| ==> s[i] != s[j]
  }

  function Elements<T>(s: seq<T>): set<T> {
    set x | x in s
  }

  datatype Dict<V> = Dict(order: seq<string>, at: map<string, V>) {

    ghost predicate Valid() {
      Distinct(order) && Elements(order) == at.Keys
    }

    // d[k] = v: a new key goes last, a known key keeps its place.
    function Put(k: string, v: V): (d: Dict<V>)
      ensures Valid() ==> d.Valid()
    {
      if k in at then Dict(order, at[k := v])
      else
        var d := Dict(order + [k], at[k := v]);
        assert Valid() ==> Elements(d.order) == Elements(order) + {k};
        d
    }
  }

  // The keys outside a set, in order: [k for k in keys if k not in known].
  function Without(keys: seq<string>, known: set<string>): (r: seq<string>)
    ensures forall k :: k in r <==> k in keys && k !in known
    ensures Distinct(keys) ==> Distinct(r)
    ensures (forall k :: k in keys ==> k in known) ==> r == []
  {
    if keys == [] then []
    else if keys[0] in known then Without(keys[1..], known)
    else [keys[0]] + Without(keys[1..], known)
  }

  lemma {:induction false} ElementsSize<T>(s: seq<T>)
    requires Distinct(s)
    ensures |Elements(s)| == |s|
  {
    if s != [] {
      ElementsSize(s[1..]);
      assert Elements(s) == {s[0]} + Elements(s[1..]);
      assert s[0] !in Elements(s[1..]);
    } else {
      assert Elements(s) == {};
    }
  }
}
