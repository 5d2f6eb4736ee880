/**
 * Photo and document records as the server stores them and the client keeps
 * them, and the delete-by-id filter both sides apply to them
 * (`fotos.filter((foto) => foto.id !== Number(id))` on the client,
 * `DELETE FROM fotos WHERE id = ?` on the server).
 */
module Records {

  /** A row of `fotos` without its report id: caption, stored path, display order. */
  datatype Foto = Foto(id: int, legenda: string, caminho: string, ordem: int)

  /** A row of `documentos` without its report id: kind tag, original file name, stored path. */
  datatype Documento = Documento(id: int, tipo: string, nomeOriginal: string, caminho: string)

  /** The elements whose id differs from `id`, in their original order. */
  function WithoutId<T>(xs: seq<T>, id: int, idOf: T -> int): (r: seq<T>)
    ensures |r| <= |xs|
    ensures forall i :: 0 <= i < |r| ==> r[i] in xs && idOf(r[i]) != id
    ensures forall i :: 0 <= i < |xs| && idOf(xs[i]) != id ==> xs[i] in r
  {
    if xs == [] then []
    else (if idOf(xs[0]) == id then [] else [xs[0]]) + WithoutId(xs[1..], id, idOf)
  }

  /** Every element whose id differs is kept as often as it occurs, and every element with the id is gone. */
  lemma {:induction false} WithoutIdCounts<T>(xs: seq<T>, id: int, idOf: T -> int)
    ensures forall x :: x in xs ==>
      multiset(WithoutId(xs, id, idOf))[x] == if idOf(x) == id then 0 else multiset(xs)[x]
  {
    if xs != [] {
      WithoutIdCounts(xs[1..], id, idOf);
      assert xs == [xs[0]] + xs[1..];
      var head: seq<T> := if idOf(xs[0]) == id then [] else [xs[0]];
      assert WithoutId(xs, id, idOf) == head + WithoutId(xs[1..], id, idOf);
      forall x | x in xs
        ensures multiset(WithoutId(xs, id, idOf))[x] == if idOf(x) == id then 0 else multiset(xs)[x]
      {
        if x !in xs[1..] {
          assert multiset(xs[1..])[x] == 0;
          assert multiset(WithoutId(xs[1..], id, idOf))[x] == 0;
        }
      }
    }
  }

  /** The filter works element by element, so it keeps the order: filtering a concatenation concatenates the filtered parts. */
  lemma {:induction false} WithoutIdAppend<T>(a: seq<T>, b: seq<T>, id: int, idOf: T -> int)
    ensures WithoutId(a + b, id, idOf) == WithoutId(a, id, idOf) + WithoutId(b, id, idOf)
  {
    if a == [] {
      assert a + b == b;
    } else {
      assert (a + b)[0] == a[0];
      assert (a + b)[1..] == a[1..] + b;
      WithoutIdAppend(a[1..], b, id, idOf);
    }
  }

  /** No two elements share an id (the tables' primary key). */
  predicate UniqueIds<T>(xs: seq<T>, idOf: T -> int) {
    forall i, j :: 0 <= i < j < |xs| ==> idOf(xs[i]) != idOf(xs[j])
  }

  /** Filtering out an id that no element carries changes nothing. */
  lemma {:induction false} WithoutAbsentId<T>(xs: seq<T>, id: int, idOf: T -> int)
    requires forall i :: 0 <= i < |xs| ==> idOf(xs[i]) != id
    ensures WithoutId(xs, id, idOf) == xs
  {
    if xs != [] {
      WithoutAbsentId(xs[1..], id, idOf);
      assert [xs[0]] + xs[1..] == xs;
    }
  }

  /** Dropping the first element keeps the ids unique. */
  lemma UniqueIdsTail<T>(xs: seq<T>, idOf: T -> int)
    requires xs != [] && UniqueIds(xs, idOf)
    ensures UniqueIds(xs[1..], idOf)
    ensures forall i :: 0 <= i < |xs| - 1 ==> idOf(xs[1..][i]) != idOf(xs[0])
  {
    var tail := xs[1..];
    forall i, j | 0 <= i < j < |tail|
      ensures idOf(tail[i]) != idOf(tail[j])
    {
      assert tail[i] == xs[i + 1] && tail[j] == xs[j + 1];
    }
    forall i | 0 <= i < |tail|
      ensures idOf(tail[i]) != idOf(xs[0])
    {
      assert tail[i] == xs[i + 1];
    }
  }

  /** With unique ids, filtering out the id of element `k` removes exactly that element. */
  lemma {:induction false} WithoutIdRemovesOne<T>(xs: seq<T>, id: int, idOf: T -> int, k: nat)
    requires UniqueIds(xs, idOf)
    requires k < |xs| && idOf(xs[k]) == id
    ensures WithoutId(xs, id, idOf) == xs[..k] + xs[k + 1..]
  {
    var tail := xs[1..];
    UniqueIdsTail(xs, idOf);
    if k == 0 {
      WithoutAbsentId(tail, id, idOf);
      assert WithoutId(xs, id, idOf) == [] + WithoutId(tail, id, idOf);
      assert xs[..0] + xs[1..] == tail;
    } else {
      calc {
        WithoutId(xs, id, idOf);
        [xs[0]] + WithoutId(tail, id, idOf);
        { WithoutIdRemovesOne(tail, id, idOf, k - 1); }
        [xs[0]] + (tail[..k - 1] + tail[k..]);
        { ConsSplice(xs, k); }
        xs[..k] + xs[k + 1..];
      }
    }
  }

  /** Putting the head back in front of the tail with its `k - 1`-th element cut is cutting the `k`-th. */
  lemma ConsSplice<T>(xs: seq<T>, k: nat)
    requires 0 < k < |xs|
    ensures [xs[0]] + (xs[1..][..k - 1] + xs[1..][k..]) == xs[..k] + xs[k + 1..]
  {
    assert xs[1..][..k - 1] == xs[1..k];
    assert xs[1..][k..] == xs[k + 1..];
    assert [xs[0]] + xs[1..k] == xs[..k];
  }

  /** Filtering twice by the same id is filtering once. */
  lemma WithoutIdIdempotent<T>(xs: seq<T>, id: int, idOf: T -> int)
    ensures WithoutId(WithoutId(xs, id, idOf), id, idOf) == WithoutId(xs, id, idOf)
  {
    var r := WithoutId(xs, id, idOf);
    WithoutAbsentId(r, id, idOf);
  }
}
