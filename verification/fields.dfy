/** PHP string-keyed arrays as ordered association lists: keys are distinct,
    iteration follows insertion order, assignment to an existing key keeps its
    position and assignment to a new key appends it, `unset` drops the key. */
module Fields {
  import opened Wrappers
  import opened Seqs

  type Entries = seq<(string, string)>

  /** The keys in iteration order. */
  function KeysOf(m: Entries): (ks: seq<string>)
    ensures |ks| == |m|
    ensures forall i :: 0 <= i < |m| ==> ks[i] == m[i].0
    decreases |m|
  {
    if m == [] then [] else [m[0].0] + KeysOf(m[1..])
  }

  /** A PHP array: no key occurs twice. */
  type Fields = m: Entries | NoDuplicates(KeysOf(m)) witness []

  /** `$m[$k] ?? null`. */
  function Lookup(m: Entries, k: string): (r: Option<string>)
    ensures r.None? <==> k !in KeysOf(m)
    ensures r.Some? ==> (k, r.value) in m
    decreases |m|
  {
    if m == [] then None
    else if m[0].0 == k then Some(m[0].1)
    else Lookup(m[1..], k)
  }

  function PutEntries(m: Entries, k: string, v: string): Entries
    decreases |m|
  {
    if m == [] then [(k, v)]
    else if m[0].0 == k then [(k, v)] + m[1..]
    else [m[0]] + PutEntries(m[1..], k, v)
  }

  /** Assignment gives the key its new value and leaves every other key's value alone. */
  lemma {:induction false} PutLookup(m: Entries, k: string, v: string)
    ensures Lookup(PutEntries(m, k, v), k) == Some(v)
    ensures forall x :: x != k ==> Lookup(PutEntries(m, k, v), x) == Lookup(m, x)
    decreases |m|
  {
    if m != [] && m[0].0 != k {
      PutLookup(m[1..], k, v);
    }
  }

  /** Assignment keeps the keys where they are and appends a new one. */
  lemma {:induction false} PutKeys(m: Entries, k: string, v: string)
    ensures KeysOf(PutEntries(m, k, v)) == if k in KeysOf(m) then KeysOf(m) else KeysOf(m) + [k]
    decreases |m|
  {
    if m != [] {
      assert KeysOf(m) == [m[0].0] + KeysOf(m[1..]);
      if m[0].0 == k {
        assert KeysOf(PutEntries(m, k, v)) == [k] + KeysOf(m[1..]);
      } else {
        var rest := PutEntries(m[1..], k, v);
        PutKeys(m[1..], k, v);
        assert KeysOf(PutEntries(m, k, v)) == [m[0].0] + KeysOf(rest);
      }
    }
  }

  /** `$m[$k] = $v`: the key keeps its place if present and is appended otherwise. */
  function Put(m: Fields, k: string, v: string): (r: Fields)
    ensures KeysOf(r) == if k in KeysOf(m) then KeysOf(m) else KeysOf(m) + [k]
    ensures Lookup(r, k) == Some(v)
    ensures forall x :: x != k ==> Lookup(r, x) == Lookup(m, x)
  {
    PutKeys(m, k, v);
    PutLookup(m, k, v);
    PutEntries(m, k, v)
  }

  function RemoveEntries(m: Entries, k: string): (r: Entries)
    ensures KeysOf(r) == Exclude(KeysOf(m), [k])
    ensures Lookup(r, k) == None
    ensures forall x :: x != k ==> Lookup(r, x) == Lookup(m, x)
    ensures forall e :: e in r ==> e in m
    decreases |m|
  {
    if m == [] then []
    else if m[0].0 == k then RemoveEntries(m[1..], k)
    else
      var r := [m[0]] + RemoveEntries(m[1..], k);
      assert KeysOf(r) == [m[0].0] + KeysOf(RemoveEntries(m[1..], k));
      r
  }

  /** `unset($m[$k])`: the other entries stay, in the same order. */
  function Remove(m: Fields, k: string): (r: Fields)
    ensures KeysOf(r) == Exclude(KeysOf(m), [k])
    ensures Lookup(r, k) == None
    ensures forall x :: x != k ==> Lookup(r, x) == Lookup(m, x)
    ensures k !in KeysOf(m) ==> r == m
  {
    var r := RemoveEntries(m, k);
    if k !in KeysOf(m) then
      KeepAllWhenAbsent(m, k);
      r
    else r
  }

  lemma {:induction false} KeepAllWhenAbsent(m: Entries, k: string)
    requires k !in KeysOf(m)
    ensures RemoveEntries(m, k) == m
    decreases |m|
  {
    if m != [] {
      assert KeysOf(m) == [m[0].0] + KeysOf(m[1..]);
      KeepAllWhenAbsent(m[1..], k);
    }
  }
}
