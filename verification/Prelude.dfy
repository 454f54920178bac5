/** The failure-compatible result types and the ordered, string-keyed entry lists used by every component. */
module Prelude {

  datatype Option<+T> = None | Some(value: T) {
    predicate IsFailure() { None? }
    function PropagateFailure<U>(): Option<U>
      requires None?
    { None }
    function Extract(): T
      requires Some?
    { value }
  }

  datatype Result<+T, +E> = Ok(value: T) | Err(error: E) {
    predicate IsFailure() { Err? }
    function PropagateFailure<U>(): Result<U, E>
      requires Err?
    { Err(error) }
    function Extract(): T
      requires Ok?
    { value }
  }

  // Integer widths of the source.
  const I64_MAX: int := 0x7FFF_FFFF_FFFF_FFFF
  const I64_MIN: int := -0x8000_0000_0000_0000
  const U64_MAX: int := 0xFFFF_FFFF_FFFF_FFFF
  type i32 = x: int | -0x8000_0000 <= x <= 0x7FFF_FFFF
  type i64 = x: int | -0x8000_0000_0000_0000 <= x <= 0x7FFF_FFFF_FFFF_FFFF
  type u64 = x: int | 0 <= x <= 0xFFFF_FFFF_FFFF_FFFF

  function Min(a: int, b: int): int { if a <= b then a else b }

  predicate NoDuplicates<T(==)>(s: seq<T>) {
    forall i, j :: 0 <= i < j < |s| ==> s[i] != s[j]
  }

  /** The distinct elements of `s` in the order of their first occurrence. */
  function FirstOccurrences<T(==)>(s: seq<T>): seq<T> {
    if s == [] then []
    else
      var init := FirstOccurrences(s[..|s| - 1]);
      if s[|s| - 1] in init then init else init + [s[|s| - 1]]
  }

  /** `FirstOccurrences` is duplicate-free and has the same elements. */
  lemma {:induction false} FirstOccurrencesIsASet<T>(s: seq<T>)
    ensures NoDuplicates(FirstOccurrences(s))
    ensures forall x :: x in FirstOccurrences(s) <==> x in s
  {
    if s == [] {
    } else {
      FirstOccurrencesIsASet(s[..|s| - 1]);
      assert s == s[..|s| - 1] + [s[|s| - 1]];
    }
  }
}

/**
 * Ordered maps with string keys: JSON objects (serde_json's `Map` with `preserve_order`) and `IndexMap`.
 * Insertion overwrites a present key in place and appends an absent one.
 */
module Entries {
  import opened Prelude

  function Lookup<V>(es: seq<(string, V)>, k: string): Option<V> {
    if es == [] then None
    else if es[0].0 == k then Some(es[0].1)
    else Lookup(es[1..], k)
  }

  predicate Has<V>(es: seq<(string, V)>, k: string) { Lookup(es, k).Some? }

  function Keys<V>(es: seq<(string, V)>): (ks: seq<string>)
    ensures |ks| == |es|
    ensures forall i :: 0 <= i < |es| ==> ks[i] == es[i].0
  {
    seq(|es|, i requires 0 <= i < |es| => es[i].0)
  }

  predicate DistinctKeys<V>(es: seq<(string, V)>) { NoDuplicates(Keys(es)) }

  function Insert<V>(es: seq<(string, V)>, k: string, v: V): seq<(string, V)> {
    if es == [] then [(k, v)]
    else if es[0].0 == k then [(k, v)] + es[1..]
    else [es[0]] + Insert(es[1..], k, v)
  }

  lemma {:induction false} LookupInKeys<V>(es: seq<(string, V)>, k: string)
    ensures Has(es, k) <==> k in Keys(es)
  {
    if es == [] {
    } else {
      LookupInKeys(es[1..], k);
      assert Keys(es) == [es[0].0] + Keys(es[1..]);
    }
  }

  lemma {:induction false} LookupIndex<V>(es: seq<(string, V)>, k: string) returns (i: nat)
    requires Has(es, k)
    ensures i < |es| && es[i].0 == k && Lookup(es, k) == Some(es[i].1)
  {
    if es[0].0 == k {
      i := 0;
    } else {
      i := LookupIndex(es[1..], k);
      i := i + 1;
    }
  }

  /** With distinct keys an entry is found under its own key. */
  lemma {:induction false} LookupAt<V>(es: seq<(string, V)>, i: nat)
    requires DistinctKeys(es) && i < |es|
    ensures Lookup(es, es[i].0) == Some(es[i].1)
  {
    if i == 0 {
    } else {
      assert Keys(es)[0] != Keys(es)[i];
      assert forall j :: 0 <= j < |es[1..]| ==> Keys(es[1..])[j] == Keys(es)[j + 1];
      LookupAt(es[1..], i - 1);
    }
  }

  lemma {:induction false} LookupConcat<V>(a: seq<(string, V)>, b: seq<(string, V)>, k: string)
    ensures Lookup(a + b, k) == if Has(a, k) then Lookup(a, k) else Lookup(b, k)
  {
    if a == [] {
      assert a + b == b;
    } else {
      assert (a + b)[1..] == a[1..] + b;
      LookupConcat(a[1..], b, k);
    }
  }

  /** Insertion changes the value at one key, keeps every other key and its place, and keeps keys distinct. */
  lemma {:induction false} InsertLookup<V>(es: seq<(string, V)>, k: string, v: V, q: string)
    ensures Lookup(Insert(es, k, v), q) == if q == k then Some(v) else Lookup(es, q)
  {
    if es == [] {
    } else if es[0].0 == k {
      assert Insert(es, k, v)[1..] == es[1..];
    } else {
      InsertLookup(es[1..], k, v, q);
      assert Insert(es, k, v)[1..] == Insert(es[1..], k, v);
    }
  }

  lemma InsertLookups<V>(es: seq<(string, V)>, k: string, v: V)
    ensures forall q :: Lookup(Insert(es, k, v), q) == if q == k then Some(v) else Lookup(es, q)
  {
    forall q
      ensures Lookup(Insert(es, k, v), q) == if q == k then Some(v) else Lookup(es, q)
    {
      InsertLookup(es, k, v, q);
    }
  }

  lemma KeysCons<V>(e: (string, V), es: seq<(string, V)>)
    ensures Keys([e] + es) == [e.0] + Keys(es)
  {}

  lemma {:induction false} InsertPresent<V>(es: seq<(string, V)>, k: string, v: V)
    requires k in Keys(es)
    ensures Keys(Insert(es, k, v)) == Keys(es)
  {
    assert es == [es[0]] + es[1..];
    KeysCons(es[0], es[1..]);
    if es[0].0 == k {
      KeysCons((k, v), es[1..]);
    } else {
      InsertPresent(es[1..], k, v);
      KeysCons(es[0], Insert(es[1..], k, v));
    }
  }

  lemma {:induction false} InsertAbsent<V>(es: seq<(string, V)>, k: string, v: V)
    requires k !in Keys(es)
    ensures Insert(es, k, v) == es + [(k, v)]
  {
    if es == [] {
    } else {
      assert es == [es[0]] + es[1..];
      KeysCons(es[0], es[1..]);
      InsertAbsent(es[1..], k, v);
      assert [es[0]] + (es[1..] + [(k, v)]) == [es[0]] + es[1..] + [(k, v)];
    }
  }

  lemma InsertKeys<V>(es: seq<(string, V)>, k: string, v: V)
    ensures Keys(Insert(es, k, v)) == if k in Keys(es) then Keys(es) else Keys(es) + [k]
  {
    if k in Keys(es) {
      InsertPresent(es, k, v);
    } else {
      InsertAbsent(es, k, v);
      assert Keys(es + [(k, v)]) == Keys(es) + [k];
    }
  }

  lemma InsertKeepsKeysDistinct<V>(es: seq<(string, V)>, k: string, v: V)
    requires DistinctKeys(es)
    ensures DistinctKeys(Insert(es, k, v))
  {
    InsertKeys(es, k, v);
  }

  // ------------------------------------------------------------------------------------------------------------
  // Keeping the entries whose key passes a test
  // ------------------------------------------------------------------------------------------------------------

  function KeepKeys<V>(es: seq<(string, V)>, keep: string -> bool): seq<(string, V)> {
    if es == [] then []
    else (if keep(es[0].0) then [es[0]] else []) + KeepKeys(es[1..], keep)
  }

  lemma {:induction false} KeepKeysConcat<V>(a: seq<(string, V)>, b: seq<(string, V)>, keep: string -> bool)
    ensures KeepKeys(a + b, keep) == KeepKeys(a, keep) + KeepKeys(b, keep)
  {
    if a == [] {
      assert a + b == b;
    } else {
      var head := if keep(a[0].0) then [a[0]] else [];
      var x, y := KeepKeys(a[1..], keep), KeepKeys(b, keep);
      KeepKeysConcat(a[1..], b, keep);
      assert KeepKeys(a + b, keep) == head + (x + y) by { assert (a + b)[0] == a[0] && (a + b)[1..] == a[1..] + b; }
      assert head + (x + y) == head + x + y;
    }
  }

  lemma {:induction false} KeepKeysSpec<V>(es: seq<(string, V)>, keep: string -> bool)
    ensures var kept := KeepKeys(es, keep);
            && (forall i :: 0 <= i < |kept| ==> keep(kept[i].0))
            && (forall k :: Lookup(kept, k) == if keep(k) then Lookup(es, k) else None)
            && |kept| <= |es|
            && (kept == es <==> forall i :: 0 <= i < |es| ==> keep(es[i].0))
  {
    if es == [] {
    } else {
      KeepKeysSpec(es[1..], keep);
      var rest := KeepKeys(es[1..], keep);
      if keep(es[0].0) {
        assert KeepKeys(es, keep)[1..] == rest;
        assert forall j :: 0 < j < |es| ==> es[j] == es[1..][j - 1];
        assert es == [es[0]] + es[1..];
      } else {
        assert KeepKeys(es, keep) == rest;
      }
    }
  }

  // ------------------------------------------------------------------------------------------------------------
  // Struct fields: what a derived serializer emits. A field that is `None` is skipped.
  // ------------------------------------------------------------------------------------------------------------

  function Compact<V>(fields: seq<(string, Option<V>)>): seq<(string, V)> {
    if fields == [] then []
    else (if fields[0].1.Some? then [(fields[0].0, fields[0].1.value)] else []) + Compact(fields[1..])
  }

  lemma {:induction false} CompactKeys<V>(fields: seq<(string, Option<V>)>)
    ensures forall k :: k in Keys(Compact(fields)) ==> k in Keys(fields)
  {
    if fields == [] {
    } else {
      CompactKeys(fields[1..]);
      assert Keys(fields) == [fields[0].0] + Keys(fields[1..]);
      var head := if fields[0].1.Some? then [(fields[0].0, fields[0].1.value)] else [];
      assert Keys(Compact(fields)) == Keys(head) + Keys(Compact(fields[1..]));
    }
  }

  lemma {:induction false} CompactAbsent<V>(fields: seq<(string, Option<V>)>, k: string)
    requires k !in Keys(fields)
    ensures Lookup(Compact(fields), k) == None
  {
    CompactKeys(fields);
    LookupInKeys(Compact(fields), k);
  }

  lemma DistinctTail<V>(fields: seq<(string, Option<V>)>)
    requires DistinctKeys(fields) && fields != []
    ensures DistinctKeys(fields[1..]) && fields[0].0 !in Keys(fields[1..])
  {
    assert forall j :: 0 <= j < |fields[1..]| ==> Keys(fields[1..])[j] == Keys(fields)[j + 1];
    assert Keys(fields)[0] == fields[0].0;
  }

  lemma CompactHead<V>(fields: seq<(string, Option<V>)>, k: string)
    requires fields != []
    ensures Lookup(Compact(fields), k) ==
            if fields[0].0 == k && fields[0].1.Some? then fields[0].1 else Lookup(Compact(fields[1..]), k)
  {
    if fields[0].1.Some? {
      assert Compact(fields)[1..] == Compact(fields[1..]);
    } else {
      assert Compact(fields) == Compact(fields[1..]);
    }
  }

  /** Field `i` of a struct is read back exactly as it was written, absence included. */
  lemma {:induction false} CompactLookup<V>(fields: seq<(string, Option<V>)>, i: nat)
    requires DistinctKeys(fields) && i < |fields|
    ensures Lookup(Compact(fields), fields[i].0) == fields[i].1
  {
    DistinctTail(fields);
    CompactHead(fields, fields[i].0);
    if i == 0 {
      CompactAbsent(fields[1..], fields[0].0);
    } else {
      assert fields[1..][i - 1] == fields[i];
      assert Keys(fields[1..])[i - 1] == fields[i].0;
      CompactLookup(fields[1..], i - 1);
    }
  }

  /** A block of fields inside a struct is read back at its own keys. */
  lemma BlockLookups<V>(before: seq<(string, Option<V>)>, block: seq<(string, Option<V>)>, after: seq<(string, Option<V>)>)
    requires DistinctKeys(before + block + after)
    ensures forall i :: 0 <= i < |block| ==> Lookup(Compact(before + block + after), block[i].0) == block[i].1
  {
    var fields := before + block + after;
    forall i | 0 <= i < |block|
      ensures Lookup(Compact(fields), block[i].0) == block[i].1
    {
      assert fields[|before| + i] == block[i];
      CompactLookup(fields, |before| + i);
    }
  }

  // ------------------------------------------------------------------------------------------------------------
  // Sorted maps: `BTreeMap<String, V>` as its entries in key order. Rust orders strings by their bytes, which for
  // valid UTF-8 is the order by scalar values.
  // ------------------------------------------------------------------------------------------------------------

  predicate Less(a: string, b: string) {
    b != "" && (a == "" || a[0] < b[0] || (a[0] == b[0] && Less(a[1..], b[1..])))
  }

  predicate Increasing(ks: seq<string>) {
    forall i, j :: 0 <= i < j < |ks| ==> Less(ks[i], ks[j])
  }

  type Sorted<V> = es: seq<(string, V)> | Increasing(Keys(es)) witness []

  lemma {:induction false} LessIsTotal(a: string, b: string)
    ensures a == b || Less(a, b) || Less(b, a)
    ensures !(Less(a, b) && Less(b, a)) && !Less(a, a)
    decreases |a|
  {
    if a == "" || b == "" {
      if a != "" {
        LessIsTotal(a[1..], a[1..]);
      }
    } else {
      assert a == [a[0]] + a[1..] && b == [b[0]] + b[1..];
      LessIsTotal(a[1..], b[1..]);
      LessIsTotal(a[1..], a[1..]);
    }
  }

  lemma {:induction false} LessIsTransitive(a: string, b: string, c: string)
    requires Less(a, b) && Less(b, c)
    ensures Less(a, c)
  {
    if a == "" {
    } else if a[0] == b[0] == c[0] {
      LessIsTransitive(a[1..], b[1..], c[1..]);
    }
  }

  /** `BTreeMap::insert`. */
  function SortedInsert<V>(es: seq<(string, V)>, k: string, v: V): seq<(string, V)> {
    if es == [] then [(k, v)]
    else if es[0].0 == k then [(k, v)] + es[1..]
    else if Less(k, es[0].0) then [(k, v)] + es
    else [es[0]] + SortedInsert(es[1..], k, v)
  }

  lemma {:induction false} SortedInsertKeys<V>(es: seq<(string, V)>, k: string, v: V)
    ensures forall q :: q in Keys(SortedInsert(es, k, v)) ==> q == k || q in Keys(es)
  {
    if es == [] {
    } else {
      assert es == [es[0]] + es[1..];
      KeysCons(es[0], es[1..]);
      KeysCons((k, v), es);
      KeysCons((k, v), es[1..]);
      KeysCons(es[0], SortedInsert(es[1..], k, v));
      SortedInsertKeys(es[1..], k, v);
    }
  }

  lemma IncreasingPrepend(k: string, ks: seq<string>)
    ensures Increasing([k] + ks) <==> Increasing(ks) && forall q :: q in ks ==> Less(k, q)
  {
    var all := [k] + ks;
    if Increasing(all) {
      forall i, j | 0 <= i < j < |ks|
        ensures Less(ks[i], ks[j])
      {
        assert Less(all[i + 1], all[j + 1]);
      }
      forall j | 0 <= j < |ks|
        ensures Less(k, ks[j])
      {
        assert Less(all[0], all[j + 1]);
      }
    } else if forall q :: q in ks ==> Less(k, q) {
      var i, j :| 0 <= i < j < |all| && !Less(all[i], all[j]);
      assert i > 0 && !Less(ks[i - 1], ks[j - 1]);
    }
  }

  lemma IncreasingCons<V>(e: (string, V), es: seq<(string, V)>)
    ensures Increasing(Keys([e] + es)) <==> Increasing(Keys(es)) && forall q :: q in Keys(es) ==> Less(e.0, q)
  {
    KeysCons(e, es);
    IncreasingPrepend(e.0, Keys(es));
  }

  lemma {:induction false} SortedInsertIsSorted<V>(es: seq<(string, V)>, k: string, v: V)
    requires Increasing(Keys(es))
    ensures Increasing(Keys(SortedInsert(es, k, v)))
  {
    if es == [] {
    } else {
      var head, rest := es[0], es[1..];
      assert es == [head] + rest;
      IncreasingCons(head, rest);
      LessIsTotal(k, head.0);
      if head.0 == k {
        IncreasingCons((k, v), rest);
      } else if Less(k, head.0) {
        KeysCons(head, rest);
        forall q | q in Keys(es)
          ensures Less(k, q)
        {
          if q != head.0 {
            LessIsTransitive(k, head.0, q);
          }
        }
        IncreasingCons((k, v), es);
      } else {
        SortedInsertIsSorted(rest, k, v);
        SortedInsertKeys(rest, k, v);
        IncreasingCons(head, SortedInsert(rest, k, v));
      }
    }
  }

  /** A key above all others goes last. */
  lemma {:induction false} SortedInsertLast<V>(es: seq<(string, V)>, k: string, v: V)
    requires forall q :: q in Keys(es) ==> Less(q, k)
    ensures SortedInsert(es, k, v) == es + [(k, v)]
  {
    if es == [] {
    } else {
      var head, rest := es[0], es[1..];
      assert es == [head] + rest;
      KeysCons(head, rest);
      assert head.0 != k && !Less(k, head.0) by { LessIsTotal(head.0, k); }
      assert SortedInsert(rest, k, v) == rest + [(k, v)] by { SortedInsertLast(rest, k, v); }
      assert SortedInsert(es, k, v) == [head] + SortedInsert(rest, k, v);
    }
  }

  /** A struct writes its own keys and no others. */
  ghost predicate OnlyKeys<V>(es: seq<(string, V)>, ks: set<string>) { forall k :: Has(es, k) ==> k in ks }

  lemma CompactOnlyKeys<V>(fields: seq<(string, Option<V>)>, ks: set<string>)
    requires forall i :: 0 <= i < |fields| ==> fields[i].0 in ks
    ensures OnlyKeys(Compact(fields), ks)
  {
    forall k | k !in ks
      ensures !Has(Compact(fields), k)
    {
      CompactAbsent(fields, k);
    }
  }

  lemma {:induction false} SortedInsertLookup<V>(es: seq<(string, V)>, k: string, v: V, q: string)
    ensures Lookup(SortedInsert(es, k, v), q) == if q == k then Some(v) else Lookup(es, q)
  {
    if es == [] || es[0].0 == k || Less(k, es[0].0) {
      assert es != [] ==> ([(k, v)] + es)[1..] == es && ([(k, v)] + es[1..])[1..] == es[1..];
    } else {
      SortedInsertLookup(es[1..], k, v, q);
      assert SortedInsert(es, k, v)[1..] == SortedInsert(es[1..], k, v);
    }
  }

  /** A value that no field has is not written. */
  lemma {:induction false} CompactAvoids<V>(fields: seq<(string, Option<V>)>, x: V)
    requires forall i :: 0 <= i < |fields| ==> fields[i].1 != Some(x)
    ensures forall k :: Lookup(Compact(fields), k) != Some(x)
  {
    if fields == [] {
    } else {
      assert fields[0].1 != Some(x);
      assert forall i :: 0 <= i < |fields[1..]| ==> fields[1..][i] == fields[i + 1];
      CompactAvoids(fields[1..], x);
      forall k
        ensures Lookup(Compact(fields), k) != Some(x)
      {
        CompactHead(fields, k);
      }
    }
  }

  /** A key whose every field is unset is not written. */
  lemma {:induction false} CompactUnset<V>(fields: seq<(string, Option<V>)>, k: string)
    requires forall i :: 0 <= i < |fields| ==> fields[i].0 != k || fields[i].1.None?
    ensures Lookup(Compact(fields), k) == None
  {
    if fields == [] {
    } else {
      assert forall i :: 0 <= i < |fields[1..]| ==> fields[1..][i] == fields[i + 1];
      CompactHead(fields, k);
      CompactUnset(fields[1..], k);
      assert fields[0].0 != k || fields[0].1.None?;
    }
  }
}
