/** The inventory search: keep the products whose name, EPC, serial number or
    description contains the query, ignoring case. */
module Tables {
  import opened Common
  import opened Models

  /** `field__icontains=q`: case-insensitive substring test (ASCII case folding). */
  predicate IContains(field: string, q: string) {
    Contains(Lower(field), Lower(q))
  }

  predicate Matches(p: Producto, q: string) {
    IContains(p.nombre, q) || IContains(p.epc, q) || IContains(p.nSerie, q) || IContains(p.descripcion, q)
  }

  /** `a` is `b` with some elements left out, the rest in their original order. */
  predicate IsSubsequence<T(==)>(a: seq<T>, b: seq<T>)
    decreases |b|
  {
    a == [] || (|b| > 0 && ((a[0] == b[0] && IsSubsequence(a[1..], b[1..])) || IsSubsequence(a, b[1..])))
  }

  lemma {:induction false} IsSubsequenceRefl<T>(a: seq<T>)
    ensures IsSubsequence(a, a)
  {
    if a != [] { IsSubsequenceRefl(a[1..]); }
  }

  /** Leaving elements out twice is leaving them out once. */
  lemma {:induction false} IsSubsequenceTrans<T>(a: seq<T>, b: seq<T>, c: seq<T>)
    requires IsSubsequence(a, b) && IsSubsequence(b, c)
    ensures IsSubsequence(a, c)
    decreases |c|
  {
    if a != [] && c != [] {
      if b[0] == c[0] && IsSubsequence(b[1..], c[1..]) {
        if a[0] == b[0] && IsSubsequence(a[1..], b[1..]) {
          IsSubsequenceTrans(a[1..], b[1..], c[1..]);
        } else {
          IsSubsequenceTrans(a, b[1..], c[1..]);
        }
      } else {
        IsSubsequenceTrans(a, b, c[1..]);
      }
    }
  }

  /** The products of `qs` matching a non-empty query, in their original order. */
  function Select(qs: seq<Producto>, q: string): (r: seq<Producto>)
    ensures IsSubsequence(r, qs)
    ensures forall p :: p in r <==> p in qs && Matches(p, q)
    ensures forall p :: multiset(r)[p] == if Matches(p, q) then multiset(qs)[p] else 0
  {
    if qs == [] then []
    else
      assert qs == [qs[0]] + qs[1..];
      if Matches(qs[0], q) then [qs[0]] + Select(qs[1..], q)
      else Select(qs[1..], q)
  }

  /** `filter_inventory(qs, q)`: no query or an empty one keeps everything. */
  function FilterInventory(qs: seq<Producto>, q: Option<string>): (r: seq<Producto>)
    ensures q.None? || q.value == "" ==> r == qs
    ensures IsSubsequence(r, qs)
    ensures q.Some? && q.value != "" ==> forall p :: p in r <==> p in qs && Matches(p, q.value)
  {
    if q.None? || q.value == "" then (IsSubsequenceRefl(qs); qs) else Select(qs, q.value)
  }

  lemma {:induction false} SelectIdempotent(qs: seq<Producto>, q: string)
    ensures Select(Select(qs, q), q) == Select(qs, q)
  {
    if qs != [] {
      SelectIdempotent(qs[1..], q);
      if Matches(qs[0], q) {
        assert ([qs[0]] + Select(qs[1..], q))[1..] == Select(qs[1..], q);
      }
    }
  }

  /** Searching the result of a search again with the same query changes nothing. */
  lemma FilterInventoryIdempotent(qs: seq<Producto>, q: Option<string>)
    ensures FilterInventory(FilterInventory(qs, q), q) == FilterInventory(qs, q)
  {
    if q.Some? && q.value != "" { SelectIdempotent(qs, q.value); }
  }
}
