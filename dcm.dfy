/** Padding of a DCM listing (`DCMAPI._add_missing` and its call in
    `DCMAPI.list`, reagan/dcm.py): every requested id that the API did not
    return gets a stub record `{'id': str(id)}` appended. */
module Dcm {
  import opened Wrappers
  import opened Seqs
  import opened Json
  import opened Decimal

  /** `int(obj['id'])`. */
  function IdOf(obj: Record): (r: Result<int, Error>)
    ensures DictGet(obj, "id").None? ==> r == Failure(KeyError("id"))
  {
    match DictGet(obj, "id")
    case None => Failure(KeyError("id"))
    case Some(v) =>
      match v
      case Num(n) => Success(n)
      case Str(s) => ParseInt(s)
      case Bool(b) => Success(if b then 1 else 0)
      case _ => Failure(TypeError)
  }

  /** `{'id': str(missing_id)}`. */
  function Stub(id: int): Record {
    [("id", Str(ShowInt(id)))]
  }

  /** A stub reads back as the id it was made for, so distinct ids give distinct stubs. */
  lemma StubId(id: int)
    ensures IdOf(Stub(id)) == Success(id)
    ensures forall other :: Stub(other) == Stub(id) ==> other == id
  {
    ParseShowInt(id);
    forall other | Stub(other) == Stub(id) ensures other == id {
      assert Stub(other)[0].1.s == ShowInt(other);
      ParseShowInt(other);
    }
  }

  /** `set([int(obj['id']) for obj in response])`: the first record whose id
      cannot be read raises. */
  function ReceivedIds(response: seq<Record>): Result<set<int>, Error> {
    if response == [] then Success({})
    else
      match ReceivedIds(response[..|response| - 1])
      case Failure(e) => Failure(e)
      case Success(ids) =>
        match IdOf(response[|response| - 1])
        case Failure(e) => Failure(e)
        case Success(id) => Success(ids + {id})
  }

  /** The received ids are exactly the ids read from the records. */
  lemma {:induction false} ReceivedIdsRead(response: seq<Record>)
    ensures ReceivedIds(response).Success? <==> forall k :: 0 <= k < |response| ==> IdOf(response[k]).Success?
    ensures ReceivedIds(response).Success? ==> forall id :: id in ReceivedIds(response).value <==>
      exists k :: 0 <= k < |response| && IdOf(response[k]) == Success(id)
  {
    if response != [] {
      var front := response[..|response| - 1];
      ReceivedIdsRead(front);
      assert forall k :: 0 <= k < |front| ==> front[k] == response[k];
    }
  }

  /** `set(arguments.get('ids', []))`; `None` stands for an `arguments` without `'ids'`. */
  function Requested(ids: Option<seq<int>>): set<int> {
    match ids
    case None => {}
    case Some(xs) => set x | x in xs
  }

  /** The list comprehension over the response, stopping at the first record
      whose id cannot be read. */
  method ReadIds(response: seq<Record>) returns (r: Result<set<int>, Error>)
    ensures r == ReceivedIds(response)
  {
    var received: set<int> := {};
    var i := 0;
    while i < |response|
      invariant 0 <= i <= |response|
      invariant ReceivedIds(response[..i]) == Success(received)
    {
      assert response[..i + 1][..i] == response[..i];
      var id := IdOf(response[i]);
      if id.Failure? {
        assert ReceivedIds(response[..i + 1]).Failure?;
        ReceivedFailurePersists(response, i + 1);
        return Failure(id.error);
      }
      received := received + {id.value};
      i := i + 1;
    }
    assert response[..i] == response;
    return Success(received);
  }

  /** After padding, every requested id can be read back from some record. */
  lemma RequestedAppear(response: seq<Record>, out: seq<Record>, received: set<int>, requested: set<int>)
    requires ReceivedIds(response) == Success(received)
    requires |out| >= |response| && out[..|response|] == response
    requires forall id :: id in requested - received ==> Stub(id) in out[|response|..]
    ensures forall id :: id in requested ==> exists k :: 0 <= k < |out| && IdOf(out[k]) == Success(id)
  {
    ReceivedIdsRead(response);
    forall id | id in requested ensures exists k :: 0 <= k < |out| && IdOf(out[k]) == Success(id) {
      if id in received {
        var k :| 0 <= k < |response| && IdOf(response[k]) == Success(id);
        assert out[k] == out[..|response|][k] == response[k];
      } else {
        var k :| 0 <= k < |out[|response|..]| && out[|response|..][k] == Stub(id);
        StubId(id);
        assert out[|response| + k] == Stub(id);
      }
    }
  }

  /** The `for missing_id in ...: response.append(...)` loop. */
  method PadMissing(response: seq<Record>, missing: set<int>) returns (out: seq<Record>)
    ensures |out| == |response| + |missing| && out[..|response|] == response
    ensures forall k :: |response| <= k < |out| ==>
      IdOf(out[k]).Success? && IdOf(out[k]).value in missing && out[k] == Stub(IdOf(out[k]).value)
    ensures forall j, k :: |response| <= j < k < |out| ==> out[j] != out[k]
    ensures forall id :: id in missing ==> Stub(id) in out[|response|..]
  {
    out := response;
    var todo := missing;
    ghost var stubbed: seq<int> := [];
    ghost var done: set<int> := {};
    while |todo| > 0
      invariant todo <= missing && done == missing - todo
      invariant |done| == |stubbed| && Distinct(stubbed)
      invariant forall x :: x in stubbed <==> x in done
      invariant |out| == |response| + |stubbed| && out[..|response|] == response
      invariant forall k :: 0 <= k < |stubbed| ==> out[|response| + k] == Stub(stubbed[k])
      decreases |todo|
    {
      NonEmptyHasElement(todo);
      var missingId :| missingId in todo;
      out := out + [Stub(missingId)];
      stubbed := stubbed + [missingId];
      done := done + {missingId};
      todo := todo - {missingId};
    }
    assert todo == {};
    assert forall x :: x in stubbed <==> x in missing;
    AppendedStubs(response, out, stubbed, missing);
  }

  /** `_add_missing`: the response with one stub appended per requested id not received. */
  method AddMissing(response: seq<Record>, ids: Option<seq<int>>) returns (r: Result<seq<Record>, Error>)
    ensures r.Failure? <==> ReceivedIds(response).Failure?
    ensures r.Failure? ==> r.error == ReceivedIds(response).error
    ensures r.Success? ==> |r.value| == |response| + |Requested(ids) - ReceivedIds(response).value|
    ensures r.Success? ==> r.value[..|response|] == response
    ensures r.Success? ==> forall k :: |response| <= k < |r.value| ==>
      IdOf(r.value[k]).Success? && r.value[k] == Stub(IdOf(r.value[k]).value) &&
      IdOf(r.value[k]).value in Requested(ids) - ReceivedIds(response).value
    ensures r.Success? ==> forall j, k :: |response| <= j < k < |r.value| ==> r.value[j] != r.value[k]
    ensures r.Success? ==> forall id :: id in Requested(ids) && id !in ReceivedIds(response).value ==>
      Stub(id) in r.value[|response|..]
    ensures r.Success? ==> forall id :: id in Requested(ids) ==>
      exists k :: 0 <= k < |r.value| && IdOf(r.value[k]) == Success(id)
  {
    var read := ReadIds(response);
    if read.Failure? {
      return Failure(read.error);
    }
    var received := read.value;
    var requested := Requested(ids);
    var out := PadMissing(response, requested - received);
    RequestedAppear(response, out, received, requested);
    r := Success(out);
  }

  lemma NonEmptyHasElement(s: set<int>)
    ensures |s| > 0 ==> exists x :: x in s
  {
    if forall x :: x !in s {
      assert s == {};
    }
  }

  /** Once a prefix of the response fails to read, the whole response does. */
  lemma {:induction false} ReceivedFailurePersists(response: seq<Record>, n: nat)
    requires n <= |response| && ReceivedIds(response[..n]).Failure?
    ensures ReceivedIds(response).Failure? && ReceivedIds(response).error == ReceivedIds(response[..n]).error
    decreases |response| - n
  {
    if n < |response| {
      assert response[..n + 1][..n] == response[..n];
      ReceivedFailurePersists(response, n + 1);
    } else {
      assert response[..n] == response;
    }
  }

  lemma AppendedStubs(response: seq<Record>, out: seq<Record>, stubbed: seq<int>, missing: set<int>)
    requires Distinct(stubbed) && forall x :: x in stubbed <==> x in missing
    requires |out| == |response| + |stubbed|
    requires forall k :: 0 <= k < |stubbed| ==> out[|response| + k] == Stub(stubbed[k])
    ensures forall k :: |response| <= k < |out| ==>
      IdOf(out[k]).Success? && IdOf(out[k]).value in missing && out[k] == Stub(IdOf(out[k]).value)
    ensures forall j, k :: |response| <= j < k < |out| ==> out[j] != out[k]
    ensures forall id :: id in missing ==> Stub(id) in out[|response|..]
  {
    forall k | |response| <= k < |out|
      ensures IdOf(out[k]).Success? && IdOf(out[k]).value in missing && out[k] == Stub(IdOf(out[k]).value)
    {
      var id := stubbed[k - |response|];
      assert id in stubbed;
      StubId(id);
      assert out[k] == Stub(id);
    }
    forall j, k | |response| <= j < k < |out| ensures out[j] != out[k] {
      assert out[j] == Stub(stubbed[j - |response|]) && out[k] == Stub(stubbed[k - |response|]);
      StubId(stubbed[k - |response|]);
    }
    forall id | id in missing ensures Stub(id) in out[|response|..] {
      assert id in stubbed;
      var k :| 0 <= k < |stubbed| && stubbed[k] == id;
      var tail := out[|response|..];
      assert |tail| == |stubbed|;
      assert tail[k] == out[|response| + k];
      assert tail[k] == Stub(id);
    }
  }

  /** The end of `DCMAPI.list`: the listing is padded only when the caller's
      arguments carry `'ids'`, and is returned as paged otherwise. */
  method CompleteListing(output: seq<Record>, ids: Option<seq<int>>) returns (r: Result<seq<Record>, Error>)
    ensures ids.None? ==> r == Success(output)
    ensures ids.Some? ==> (r.Failure? <==> ReceivedIds(output).Failure?)
    ensures r.Success? ==> |r.value| >= |output| && r.value[..|output|] == output
    ensures ids.Some? && r.Success? ==> |r.value| == |output| + |Requested(ids) - ReceivedIds(output).value|
  {
    if ids.Some? {
      r := AddMissing(output, ids);
    } else {
      r := Success(output);
    }
  }
}
