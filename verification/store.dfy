/** The in-memory collection behind each mock service: an array of records
    addressed by id. Each call is a pure function from the stored array to the
    new array and the call's result; a thrown error leaves the array unchanged. */
module Store {
  import opened Wrappers
  import Seqs

  /** The stored records after a call, and what the call returned or threw. */
  datatype Reply<T, R> = Reply(data: seq<T>, result: Result<R>)

  /** Index `i` holds the first record whose key is `k`. */
  ghost predicate IsFirst<T>(data: seq<T>, key: T -> string, k: string, i: int) {
    0 <= i < |data| && key(data[i]) == k && forall j :: 0 <= j < i ==> key(data[j]) != k
  }

  /** No record has key `k`. */
  ghost predicate Absent<T>(data: seq<T>, key: T -> string, k: string) {
    forall j :: 0 <= j < |data| ==> key(data[j]) != k
  }

  /** At most one record has key `k`. */
  ghost predicate AtMostOne<T>(data: seq<T>, key: T -> string, k: string) {
    forall i, j :: 0 <= i < |data| && 0 <= j < |data| && key(data[i]) == k && key(data[j]) == k ==> i == j
  }

  /** `data.findIndex(x => key(x) === k)`, with -1 as `None`. */
  function IndexOf<T>(data: seq<T>, key: T -> string, k: string): (r: Option<nat>)
    ensures r.Some? ==> IsFirst(data, key, k, r.value)
    ensures r.None? <==> Absent(data, key, k)
  {
    Seqs.FindIndex(data, x => key(x) == k)
  }

  /** The first index with key `k` is the only index `IsFirst` admits. */
  lemma FirstIsUnique<T>(data: seq<T>, key: T -> string, k: string, i: int)
    requires IsFirst(data, key, k, i)
    ensures IndexOf(data, key, k) == Some(i)
  {
    assert key(data[i]) == k;
  }

  /** `getById`: the first record with key `k`, or `null`. */
  function Find<T>(data: seq<T>, key: T -> string, k: string): (r: Option<T>)
    ensures r.None? <==> Absent(data, key, k)
    ensures forall i :: IsFirst(data, key, k, i) ==> r == Some(data[i])
  {
    match IndexOf(data, key, k)
    case None => None
    case Some(i) =>
      assert forall i' :: IsFirst(data, key, k, i') ==> i' == i by {
        forall i' | IsFirst(data, key, k, i') ensures i' == i {
          FirstIsUnique(data, key, k, i');
        }
      }
      Some(data[i])
  }

  /** `update`: the first record with key `k` is replaced by `merge` of itself and
      returned; with no such record the call throws `notFound`. */
  function Update<T>(data: seq<T>, key: T -> string, k: string, merge: T -> T, notFound: string): (r: Reply<T, T>)
    ensures r.result.Err? <==> Absent(data, key, k)
    ensures r.result.Err? ==> r == Reply(data, Err(notFound))
    ensures |r.data| == |data|
    ensures forall i :: IsFirst(data, key, k, i) ==>
              r.data == data[i := merge(data[i])] && r.result == Ok(merge(data[i]))
  {
    match IndexOf(data, key, k)
    case None => Reply(data, Err(notFound))
    case Some(i) =>
      assert forall i' :: IsFirst(data, key, k, i') ==> i' == i by {
        forall i' | IsFirst(data, key, k, i') ensures i' == i {
          FirstIsUnique(data, key, k, i');
        }
      }
      Reply(data[i := merge(data[i])], Ok(merge(data[i])))
  }

  /** `delete`: the first record with key `k` is spliced out and returned; with no
      such record the call throws `notFound`. */
  function Delete<T>(data: seq<T>, key: T -> string, k: string, notFound: string): (r: Reply<T, T>)
    ensures r.result.Err? <==> Absent(data, key, k)
    ensures r.result.Err? ==> r == Reply(data, Err(notFound))
    ensures r.result.Ok? ==> |r.data| == |data| - 1
    ensures r.result.Ok? ==> multiset(r.data) + multiset{r.result.value} == multiset(data)
    ensures forall i :: IsFirst(data, key, k, i) ==>
              r.data == data[..i] + data[i + 1..] && r.result == Ok(data[i])
  {
    match IndexOf(data, key, k)
    case None => Reply(data, Err(notFound))
    case Some(i) =>
      assert forall i' :: IsFirst(data, key, k, i') ==> i' == i by {
        forall i' | IsFirst(data, key, k, i') ensures i' == i {
          FirstIsUnique(data, key, k, i');
        }
      }
      Reply(Seqs.RemoveAt(data, i), Ok(data[i]))
  }

  /** `create`: the new record is pushed at the end and returned. */
  function Create<T>(data: seq<T>, record: T): (r: Reply<T, T>)
    ensures r.result == Ok(record)
    ensures |r.data| == |data| + 1 && r.data[..|data|] == data && r.data[|data|] == record
  {
    Reply(data + [record], Ok(record))
  }

  /** A page's local copy edited with `list.map(x => key(x) === k ? f(x) : x)` stays
      equal to the store after `update`, provided at most one record has key `k`,
      whether the record is present or not. */
  lemma {:induction false} MapMirrorsUpdate<T>(data: seq<T>, key: T -> string, k: string, f: T -> T, notFound: string)
    requires AtMostOne(data, key, k)
    ensures MapWhere(data, key, k, f) == Update(data, key, k, f, notFound).data
  {
    var r := Update(data, key, k, f, notFound);
    var m := MapWhere(data, key, k, f);
    if r.result.Ok? {
      var i :| IsFirst(data, key, k, i) by {
        var j := IndexOf(data, key, k).value;
        assert IsFirst(data, key, k, j);
      }
      assert r.data == data[i := f(data[i])];
      assert forall j :: 0 <= j < |data| ==> m[j] == r.data[j] by {
        forall j | 0 <= j < |data| ensures m[j] == r.data[j] {
          if key(data[j]) == k {
            assert j == i;
          }
        }
      }
    }
  }

  /** `list.map(x => key(x) === k ? f(x) : x)` */
  function MapWhere<T>(data: seq<T>, key: T -> string, k: string, f: T -> T): (r: seq<T>)
    ensures |r| == |data|
    ensures forall i :: 0 <= i < |data| ==> r[i] == (if key(data[i]) == k then f(data[i]) else data[i])
  {
    if |data| == 0 then [] else
      [if key(data[0]) == k then f(data[0]) else data[0]] + MapWhere(data[1..], key, k, f)
  }

  /** `list.filter(x => key(x) !== k)` */
  function RemoveWhere<T>(data: seq<T>, key: T -> string, k: string): (r: seq<T>)
    ensures |r| <= |data|
    ensures forall i :: 0 <= i < |r| ==> key(r[i]) != k && r[i] in data
    ensures forall i :: 0 <= i < |data| && key(data[i]) != k ==> data[i] in r
  {
    if |data| == 0 then []
    else if key(data[0]) == k then RemoveWhere(data[1..], key, k)
    else [data[0]] + RemoveWhere(data[1..], key, k)
  }

  /** Pruning distributes over concatenation: the kept records keep their order. */
  lemma {:induction false} RemoveWhereConcat<T>(a: seq<T>, b: seq<T>, key: T -> string, k: string)
    ensures RemoveWhere(a + b, key, k) == RemoveWhere(a, key, k) + RemoveWhere(b, key, k)
  {
    if |a| == 0 {
      assert a + b == b;
    } else {
      assert (a + b)[0] == a[0];
      assert (a + b)[1..] == a[1..] + b;
      RemoveWhereConcat(a[1..], b, key, k);
    }
  }

  /** With no record to remove, the pruned list is the list itself. */
  lemma {:induction false} RemoveWhereAbsent<T>(data: seq<T>, key: T -> string, k: string)
    requires Absent(data, key, k)
    ensures RemoveWhere(data, key, k) == data
  {
    if |data| > 0 {
      RemoveWhereAbsent(data[1..], key, k);
      assert data == [data[0]] + data[1..];
    }
  }

  /** Deleting from a list whose head has another key deletes from its tail. */
  lemma DeleteSkipsHead<T>(data: seq<T>, key: T -> string, k: string, notFound: string)
    requires |data| > 0 && key(data[0]) != k
    ensures Delete(data, key, k, notFound).data == [data[0]] + Delete(data[1..], key, k, notFound).data
  {
    if Absent(data, key, k) {
      AbsentFromTail(data, key, k);
      assert data == [data[0]] + data[1..];
    } else {
      var i := IndexOf(data, key, k).value;
      FirstInTail(data, key, k, i);
      SpliceShift(data, i);
    }
  }

  /** A key absent from a list is absent from its tail. */
  lemma AbsentFromTail<T>(data: seq<T>, key: T -> string, k: string)
    requires |data| > 0 && Absent(data, key, k)
    ensures Absent(data[1..], key, k)
  {
    forall j | 0 <= j < |data| - 1 ensures key(data[1..][j]) != k {
      assert data[1..][j] == data[j + 1];
    }
  }

  /** When the head has another key, the first match moves one place forward in the tail. */
  lemma FirstInTail<T>(data: seq<T>, key: T -> string, k: string, i: int)
    requires IsFirst(data, key, k, i) && key(data[0]) != k
    ensures i > 0 && IsFirst(data[1..], key, k, i - 1)
  {
    forall j | 0 <= j < i - 1 ensures key(data[1..][j]) != k {
      assert data[1..][j] == data[j + 1];
    }
  }

  /** Splicing out position `i > 0` keeps the head in front of the spliced tail. */
  lemma SpliceShift<T>(data: seq<T>, i: int)
    requires 0 < i < |data|
    ensures data[..i] + data[i + 1..] == [data[0]] + (data[1..][..i - 1] + data[1..][i..])
  {
    assert data[..i] == [data[0]] + data[1..][..i - 1];
    assert data[i + 1..] == data[1..][i..];
  }

  /** A page's local copy pruned with `list.filter(x => key(x) !== k)` stays equal to
      the store after `delete`, provided at most one record has key `k`. */
  lemma {:induction false} FilterMirrorsDelete<T>(data: seq<T>, key: T -> string, k: string, notFound: string)
    requires AtMostOne(data, key, k)
    ensures RemoveWhere(data, key, k) == Delete(data, key, k, notFound).data
  {
    if |data| == 0 {
    } else if key(data[0]) == k {
      assert IsFirst(data, key, k, 0);
      assert Absent(data[1..], key, k) by {
        forall j | 0 <= j < |data[1..]| ensures key(data[1..][j]) != k {
          assert data[1..][j] == data[j + 1];
        }
      }
      RemoveWhereAbsent(data[1..], key, k);
    } else {
      var tail := data[1..];
      assert AtMostOne(tail, key, k) by {
        forall i, j | 0 <= i < |tail| && 0 <= j < |tail| && key(tail[i]) == k && key(tail[j]) == k
          ensures i == j
        {
          assert tail[i] == data[i + 1] && tail[j] == data[j + 1];
        }
      }
      FilterMirrorsDelete(tail, key, k, notFound);
      DeleteSkipsHead(data, key, k, notFound);
    }
  }
}
