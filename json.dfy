/** JSON values as Python holds them after `json.load`, and the two operations the settings
    code performs on them: dictionary lookup and assignment (`d.get(k)`, `d[k] = v`, with
    Python's insertion order) and the `json.dumps(..., sort_keys=True)` form that
    `is_config_modified` compares. */
module Json {
  import opened Wrappers
  import opened PyStr
  import opened PyDict

  /** A JSON value. An object keeps its entries in insertion order, as a Python dict does;
      numbers with a fraction or an exponent are floats, kept as reals. */
  datatype Json =
    | JNull
    | JBool(b: bool)
    | JInt(i: int)
    | JFloat(r: real)
    | JStr(s: string)
    | JList(items: seq<Json>)
    | JObj(entries: seq<(string, Json)>)

  /** A Python dict with string keys, as its entries in insertion order. */
  type Dict<V> = DictOf<string, V>

  type Entries = Dict<Json>

  function EntryKey(e: (string, Json)): string { e.0 }

  // ---------------------------------------------------------------------------------------------
  // `json.dumps(x, sort_keys=True)`

  /** The value `json.dumps(..., sort_keys=True)` writes out: every object with its entries in
      increasing key order, at every depth. Two values serialise to the same text exactly when
      their sorted forms are equal. */
  function Sorted(j: Json): Json
    decreases j
  {
    match j
    case JList(xs) => JList(seq(|xs|, i requires 0 <= i < |xs| => Sorted(xs[i])))
    case JObj(es) => JObj(SortByKey(SortedValues(es), EntryKey))
    case _ => j
  }

  /** The entries with their values in sorted form, in their original order. */
  function SortedValues(es: Entries): (r: Entries)
    decreases JObj(es), 0
    ensures |r| == |es| && forall i :: 0 <= i < |es| ==> r[i] == (es[i].0, Sorted(es[i].1))
  {
    seq(|es|, i requires 0 <= i < |es| => (es[i].0, Sorted(es[i].1)))
  }

  /** Entries with the same elements keep the same elements once their values are sorted. */
  lemma SortedValuesSameElements(a: Entries, b: Entries)
    requires forall e :: e in a ==> e in b
    ensures forall x :: x in SortedValues(a) ==> x in SortedValues(b)
  {
    var sa, sb := SortedValues(a), SortedValues(b);
    forall x | x in sa ensures x in sb {
      var i :| 0 <= i < |sa| && sa[i] == x;
      assert a[i] in b;
      var j :| 0 <= j < |b| && b[j] == a[i];
      assert sb[j] == x;
    }
  }

  /** Sorting by key gives one order for entries with distinct keys and the same elements. */
  lemma SortByKeyCanonical(a: Entries, b: Entries)
    requires DistinctKeys(a) && DistinctKeys(b)
    requires forall e :: e in a <==> e in b
    ensures SortByKey(a, EntryKey) == SortByKey(b, EntryKey)
  {
    SortByKeySorted(a, EntryKey);
    SortByKeySorted(b, EntryKey);
    var ra, rb := SortByKey(a, EntryKey), SortByKey(b, EntryKey);
    forall x ensures x in ra <==> x in rb {
      assert x in ra <==> x in multiset(ra);
      assert x in rb <==> x in multiset(rb);
      assert x in a <==> x in multiset(a);
      assert x in b <==> x in multiset(b);
    }
    StrictlySortedUnique(ra, rb, EntryKey);
  }

  /** `sort_keys` makes the order of a dict's entries irrelevant: the same entries in any
      order serialise alike. */
  lemma ReorderedSerialisesAlike(a: Entries, b: Entries)
    requires DistinctKeys(a) && DistinctKeys(b)
    requires forall e :: e in a <==> e in b
    ensures Sorted(JObj(a)) == Sorted(JObj(b))
  {
    SortedValuesSameElements(a, b);
    SortedValuesSameElements(b, a);
    SortByKeyCanonical(SortedValues(a), SortedValues(b));
  }
}
