/**
 The entry points of `src/rpc.rs`: the batch loop that grows its reply while it reads, the full parser and the
 prefilter in front of it. Each is proved to return `Classify(body)` for every byte string.
 */
module MockSyncing {
  import opened Wrappers
  import opened Json
  import opened JsonObject
  import opened Rpc
  import opened RpcStream
  import opened RpcStreamProofs
  import opened Strings

  // ---- The batch loop ----

  /** The elements of a non-empty array body that starts at `i`. */
  function ItemsAt(s: string, i: nat): Parsed<seq<Value>>
    requires i <= |s|
  {
    match ParseItems(s, i) case Fail => Fail case Done(items, e) => Done(Elements(items), e)
  }

  /** The elements still to come after one that ended at `i`. */
  function MoreAt(s: string, i: nat): Parsed<seq<Value>>
    requires i <= |s|
  {
    var n := SkipWs(s, i);
    if Peek(s, n, ']') then Done([], n + 1)
    else if Peek(s, n, ',') then ItemsAt(s, n + 1)
    else Fail
  }

  /** The elements of an array whose bracket is just before `i`. */
  function ArrayAt(s: string, i: nat): Parsed<seq<Value>>
    requires i <= |s|
  {
    var j := SkipWs(s, i);
    if Peek(s, j, ']') then Done([], j + 1) else ItemsAt(s, i)
  }

  /** All or nothing: the outcome of an array body, or failure when an element is not local. */
  function BatchAt(s: string, i: nat): Parsed<MockResult>
    requires i <= |s|
  {
    match ArrayAt(s, i)
    case Fail => Fail
    case Done(vs, e) => if AllLocal(vs) then Done(BatchOutcome(vs), e) else Fail
  }

  function After(done: seq<Value>, rest: Parsed<seq<Value>>): Parsed<seq<Value>> {
    match rest case Fail => Fail case Done(vs, e) => Done(done + vs, e)
  }

  lemma SkipWsAgain(s: string, i: nat)
    requires i <= |s|
    ensures SkipWs(s, SkipWs(s, i)) == SkipWs(s, i)
  {
  }

  lemma ItemsAtStep(s: string, i: nat)
    requires i <= |s|
    ensures ItemsAt(s, i) ==
            match ParseValue(s, SkipWs(s, i)) case Fail => Fail case Done(v, k) => After([v], MoreAt(s, k))
  {
    hide SkipWs, ParseValue, Slice;
    if ParseValue(s, SkipWs(s, i)).Done? {
      var v, k := ParseValue(s, SkipWs(s, i)).value, ParseValue(s, SkipWs(s, i)).end;
      assert Elements(LastItem("", v, "")) == [v];
      assert [v] + [] == [v];
    }
  }

  /** One element of the loop: what it reads, and what is left to read. */
  lemma BatchStep(s: string, start: nat, done: seq<Value>, j: nat)
    requires start <= |s| && j <= |s| && AllLocal(done)
    requires ArrayAt(s, start) == After(done, ItemsAt(s, j))
    ensures ReadRequest(s, j).Fail? ==> BatchAt(s, start).Fail?
    ensures ReadRequest(s, j).Done? ==>
              var p := ParseValue(s, SkipWs(s, j));
              && p.Done? && Local(p.value)
              && ReadRequest(s, j) == Done(IdOf(p.value), p.end)
              && ArrayAt(s, start) == After(done + [p.value], MoreAt(s, p.end))
  {
    hide SkipWs, ParseValue, ParseItems, Local, ReadRequest, ArrayAt, ItemsAt, MoreAt;
    ReadRequestAgrees(s, j);
    ItemsAtStep(s, j);
    var p := ParseValue(s, SkipWs(s, j));
    if p.Done? && MoreAt(s, p.end).Done? {
      var vs := MoreAt(s, p.end).value;
      assert done + ([p.value] + vs) == (done + [p.value]) + vs;
      assert ((done + [p.value]) + vs)[|done|] == p.value;
    }
  }

  lemma {:induction false} IdsSnoc(vs: seq<Value>, v: Value)
    requires AllLocal(vs) && Local(v)
    ensures AllLocal(vs + [v])
    ensures Ids(vs + [v]) == Ids(vs) + match IdOf(v) case None => [] case Some(id) => [id]
    decreases |vs|
  {
    hide Local, IdOf;
    if vs == [] {
      assert vs + [v] == [v];
      assert [v][1..] == [];
    } else {
      IdsSnoc(vs[1..], v);
      assert (vs + [v])[1..] == vs[1..] + [v];
    }
  }

  lemma OpenBatchSnoc(ids: seq<string>, id: string)
    ensures OpenBatch(ids + [id]) == OpenBatch(ids) + [if ids == [] then '[' else ','] + Answer(id)
    ensures OpenBatch(ids) == "" <==> ids == []
  {
    assert (ids + [id])[..|ids|] == ids;
  }

  lemma NoIds()
    ensures Ids([]) == [] && OpenBatch([]) == ""
  {
  }

  /** The loop of `visit_seq`, from just after the opening bracket to just after the closing one. */
  method VisitSeq(s: string, start: nat) returns (r: Parsed<MockResult>)
    requires start <= |s|
    ensures r == BatchAt(s, start)
    ensures r.Done? ==> r.end <= |s|
  {
    hide SkipWs, ParseValue, ParseItems, Local, IdOf, ReadRequest, ItemsAt, OpenBatch, Ids, Answer;
    var i := start;
    var first := true;
    var seen := false;
    var reply := "";
    ghost var done: seq<Value> := [];
    NoIds();
    while true
      invariant i <= |s| && AllLocal(done)
      invariant first <==> done == []
      invariant first ==> i == start
      invariant !first ==> ArrayAt(s, start) == After(done, MoreAt(s, i))
      invariant seen <==> done != []
      invariant reply == OpenBatch(Ids(done))
      decreases |s| - i
    {
      var j := SkipWs(s, i);
      if Peek(s, j, ']') {
        BatchEnd(s, start, done, i);
        OpenBatchSnoc(Ids(done), "");
        if !seen {
          return Done(Forward, j + 1);
        } else if reply == "" {
          return Done(Silent, j + 1);
        } else {
          return Done(Reply(reply + "]"), j + 1);
        }
      }
      if !first {
        if !Peek(s, j, ',') {
          return Fail;
        }
        j := j + 1;
      }
      BatchNext(s, start, done, i, j);
      BatchStep(s, start, done, j);
      match ReadRequest(s, j) {
        case Fail =>
          return Fail;
        case Done(id, end) =>
          ghost var v := ParseValue(s, SkipWs(s, j)).value;
          IdsSnoc(done, v);
          seen := true;
          assert Ids(done) + [] == Ids(done);
          if id.Some? {
            OpenBatchSnoc(Ids(done), id.value);
            reply := reply + [if reply == "" then '[' else ','] + Answer(id.value);
          }
          done := done + [v];
          first := false;
          i := end;
      }
    }
  }

  lemma BatchEnd(s: string, start: nat, done: seq<Value>, i: nat)
    requires start <= |s| && i <= |s| && AllLocal(done)
    requires if done == [] then i == start else ArrayAt(s, start) == After(done, MoreAt(s, i))
    requires Peek(s, SkipWs(s, i), ']')
    ensures BatchAt(s, start) == Done(BatchOutcome(done), SkipWs(s, i) + 1)
  {
    hide SkipWs, Local, BatchOutcome;
    assert done + [] == done;
  }

  lemma BatchNext(s: string, start: nat, done: seq<Value>, i: nat, j: nat)
    requires start <= |s| && i <= |s| && !Peek(s, SkipWs(s, i), ']')
    requires if done == [] then i == start && j == SkipWs(s, i)
             else Peek(s, SkipWs(s, i), ',') && j == SkipWs(s, i) + 1 && ArrayAt(s, start) == After(done, MoreAt(s, i))
    ensures j <= |s| && ArrayAt(s, start) == After(done, ItemsAt(s, j))
  {
    hide SkipWs, ParseItems, ParseValue, Local;
    if done == [] {
      ItemsAtStep(s, i);
      ItemsAtStep(s, j);
      SkipWsAgain(s, i);
      assert ItemsAt(s, j).Done? ==> [] + ItemsAt(s, j).value == ItemsAt(s, j).value;
    }
  }

  // ---- Whole bodies ----

  /** The first byte that is not ASCII whitespace; the form feed counts as such here but not in JSON. */
  function FirstInk(s: string, i: nat): (r: Option<char>)
    requires i <= |s|
    ensures forall k :: i <= k < |s| && (forall l :: i <= l < k ==> IsAsciiWs(s[l])) && !IsAsciiWs(s[k]) ==>
              r == Some(s[k])
    decreases |s| - i
  {
    if i == |s| then None
    else if IsAsciiWs(s[i]) then FirstInk(s, i + 1)
    else Some(s[i])
  }

  lemma FirstInkIsRoot(s: string)
    ensures var j := SkipWs(s, 0);
            && (Peek(s, j, '[') ==> FirstInk(s, 0) == Some('['))
            && (Peek(s, j, '{') ==> FirstInk(s, 0) == Some('{'))
  {
    var j := SkipWs(s, 0);
    assert forall l :: 0 <= l < j ==> s[l] == Slice(s, 0, j)[l];
  }

  /** A value that starts with a bracket is the array read from just after it. */
  lemma RootArray(s: string, j: nat)
    requires Peek(s, j, '[')
    ensures match ParseValue(s, j)
            case Fail => ArrayAt(s, j + 1).Fail?
            case Done(v, e) =>
              && ArrayAt(s, j + 1).Done? && ArrayAt(s, j + 1).end == e
              && Outcome(v) == BatchOutcome(ArrayAt(s, j + 1).value)
  {
    hide ParseNum, ParseItems, SkipWs, Elements;
  }

  lemma BatchEndsInside(s: string, i: nat)
    requires i <= |s|
    ensures ArrayAt(s, i).Done? ==> ArrayAt(s, i).end <= |s|
    ensures BatchAt(s, i).Done? ==> BatchAt(s, i).end <= |s|
  {
    hide SkipWs, ParseItems, Local, Elements, BatchOutcome;
  }

  /** A result counts only when nothing but whitespace follows the value it was read from. */
  function Finished(s: string, r: Parsed<MockResult>): MockResult {
    match r
    case Fail => Forward
    case Done(m, e) => if e <= |s| && SkipWs(s, e) == |s| then m else Forward
  }

  function SingleResult(id: Option<string>): MockResult {
    match id case None => Silent case Some(t) => Reply(Answer(t))
  }

  function SingleAt(s: string): Parsed<MockResult> {
    match ReadRequest(s, 0) case Fail => Fail case Done(id, e) => Done(SingleResult(id), e)
  }

  /** A body whose first value is an array means what its elements mean together. */
  lemma RootBatch(s: string, j: nat)
    requires j == SkipWs(s, 0) && Peek(s, j, '[')
    ensures Classify(s) == Finished(s, BatchAt(s, j + 1))
  {
    hide ParseValue, SkipWs, BatchAt, ArrayAt, BatchOutcome, Outcome;
    RootArray(s, j);
    BatchFail(s, j + 1);
    BatchEndsInside(s, j + 1);
  }

  /** A body whose first value is not an array means what the request it holds means. */
  lemma RootRequest(s: string)
    requires !Peek(s, SkipWs(s, 0), '[')
    ensures Classify(s) == Finished(s, SingleAt(s))
  {
    hide ParseValue, SkipWs, ReadRequest, Local, IdOf, BatchOutcome, Answer;
    ReadRequestAgrees(s, 0);
    NotArray(s);
  }

  /** The full parser: for every body, what it returns is the classification of the parsed document. */
  method ParseMockSyncing(s: string) returns (r: MockResult)
    ensures r == Classify(s)
  {
    hide Classify, SkipWs, ReadRequest, BatchAt, FirstInk, SingleResult;
    FirstInkIsRoot(s);
    if FirstInk(s, 0) == Some('[') {
      var j := SkipWs(s, 0);
      if !Peek(s, j, '[') {
        NotContainer(s);
        return Forward;
      }
      RootBatch(s, j);
      var batch := VisitSeq(s, j + 1);
      if batch.Done? && SkipWs(s, batch.end) == |s| {
        return batch.value;
      }
      return Forward;
    } else {
      RootRequest(s);
      match ReadRequest(s, 0) {
        case Fail =>
          return Forward;
        case Done(id, end) =>
          if SkipWs(s, end) != |s| {
            return Forward;
          }
          return SingleResult(id);
      }
    }
  }

  lemma BatchFail(s: string, i: nat)
    requires i <= |s|
    ensures BatchAt(s, i).Fail? && ArrayAt(s, i).Done? ==> BatchOutcome(ArrayAt(s, i).value) == Forward
    ensures BatchAt(s, i).Done? ==>
              ArrayAt(s, i).Done? && BatchAt(s, i) == Done(BatchOutcome(ArrayAt(s, i).value), ArrayAt(s, i).end)
  {
    hide Local, ArrayAt;
  }

  lemma RootKind(s: string, j: nat)
    requires j <= |s| && ParseValue(s, j).Done?
    ensures ParseValue(s, j).value.Array? ==> Peek(s, j, '[')
    ensures ParseValue(s, j).value.Object? ==> Peek(s, j, '{')
  {
    hide SkipWs, ParseNum, ParseItems, ParseMembers, ParseChars;
  }

  lemma LocalIsObject(v: Value)
    ensures Local(v) ==> v.Object?
  {
  }

  /** A body whose first value is neither an array nor an object is forwarded. */
  lemma NotContainer(s: string)
    ensures var j := SkipWs(s, 0); !Peek(s, j, '[') && !Peek(s, j, '{') ==> Classify(s) == Forward
    ensures FirstInk(s, 0) == Some('[') ==> !Peek(s, SkipWs(s, 0), '{')
  {
    hide SkipWs, ParseValue, FirstInk, Local, BatchOutcome;
    FirstInkIsRoot(s);
    var j := SkipWs(s, 0);
    if ParseValue(s, j).Done? {
      RootKind(s, j);
      LocalIsObject(ParseValue(s, j).value);
    }
  }

  lemma NotArray(s: string)
    ensures var j := SkipWs(s, 0);
            !Peek(s, j, '[') && ParseValue(s, j).Done? ==> !ParseValue(s, j).value.Array?
  {
    hide SkipWs, ParseValue;
    if ParseValue(s, SkipWs(s, 0)).Done? {
      RootKind(s, SkipWs(s, 0));
    }
  }
}
