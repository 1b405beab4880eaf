/** A database table with generated identity keys, the model of a JPA
    repository whose `@Id` uses `GenerationType.IDENTITY`.

    `next` is the identity counter: every stored key lies below it, so
    `Insert` always hands out a key no row holds.
 */
module Tables {
  import opened Wrappers

  datatype Table<T> = Table(rows: map<nat, T>, next: nat)

  /** Every stored key was handed out by the counter. */
  predicate Valid<T>(t: Table<T>) {
    forall k :: k in t.rows ==> k < t.next
  }

  /** A table with no rows. */
  function Empty<T>(): (t: Table<T>)
    ensures Valid(t) && t.rows == map[]
  {
    Table(map[], 0)
  }

  /** `repository.save` of a new entity: stores `v` under a fresh key. */
  function Insert<T>(t: Table<T>, v: T): (r: (Table<T>, nat))
    requires Valid(t)
    ensures Valid(r.0)
    ensures r.1 !in t.rows
    ensures r.0.rows.Keys == t.rows.Keys + {r.1}
    ensures r.0.rows[r.1] == v
    ensures forall k :: k in t.rows ==> r.0.rows[k] == t.rows[k]
  {
    (Table(t.rows[t.next := v], t.next + 1), t.next)
  }

  /** `repository.save` of an existing entity: overwrites the row at `k`. */
  function Put<T>(t: Table<T>, k: nat, v: T): (r: Table<T>)
    requires k in t.rows
    ensures Valid(t) ==> Valid(r)
    ensures r.rows.Keys == t.rows.Keys && r.rows[k] == v
    ensures forall j :: j in t.rows && j != k ==> r.rows[j] == t.rows[j]
  {
    Table(t.rows[k := v], t.next)
  }

  /** `repository.delete`: removes the rows whose keys are in `ks`. */
  function Remove<T>(t: Table<T>, ks: set<nat>): (r: Table<T>)
    ensures Valid(t) ==> Valid(r)
    ensures r.rows.Keys == t.rows.Keys - ks
    ensures forall j :: j in r.rows ==> r.rows[j] == t.rows[j]
  {
    Table(t.rows - ks, t.next)
  }

  /** The keys below `n`, in ascending order. */
  function KeysBelow<T>(t: Table<T>, n: nat): (r: seq<nat>)
    ensures forall k :: k in r <==> k in t.rows && k < n
    ensures forall i :: 0 <= i < |r| ==> r[i] < n
    ensures forall i, j :: 0 <= i < j < |r| ==> r[i] < r[j]
  {
    if n == 0 then []
    else
      var r := KeysBelow(t, n - 1);
      if n - 1 in t.rows then r + [n - 1] else r
  }

  /** `repository.findAll()`: every key, in ascending (insertion) order. */
  function Keys<T>(t: Table<T>): (r: seq<nat>)
    requires Valid(t)
    ensures forall k :: k in r <==> k in t.rows
    ensures forall i, j :: 0 <= i < j < |r| ==> r[i] < r[j]
  {
    KeysBelow(t, t.next)
  }

  /** The smallest key below `n` whose row satisfies `p`. */
  function FindBelow<T>(t: Table<T>, p: T -> bool, n: nat): (r: Option<nat>)
    ensures r.Some? ==> r.value in t.rows && r.value < n && p(t.rows[r.value])
    ensures r.Some? ==> forall k :: k in t.rows && k < r.value ==> !p(t.rows[k])
    ensures r.None? ==> forall k :: k in t.rows && k < n ==> !p(t.rows[k])
  {
    if n == 0 then None
    else
      match FindBelow(t, p, n - 1)
      case Some(k) => Some(k)
      case None => if n - 1 in t.rows && p(t.rows[n - 1]) then Some(n - 1) else None
  }

  /** A derived `findBy...` query returning an `Optional`: the first matching key. */
  function Find<T>(t: Table<T>, p: T -> bool): (r: Option<nat>)
    requires Valid(t)
    ensures r.Some? ==> r.value in t.rows && p(t.rows[r.value])
    ensures r.None? <==> forall k :: k in t.rows ==> !p(t.rows[k])
  {
    FindBelow(t, p, t.next)
  }

  /** When at most one row matches, `Find` returns exactly that row. */
  lemma FindUnique<T>(t: Table<T>, p: T -> bool, k: nat)
    requires Valid(t)
    requires k in t.rows && p(t.rows[k])
    requires forall j :: j in t.rows && p(t.rows[j]) ==> j == k
    ensures Find(t, p) == Some(k)
  {
  }
}
