/** The handler a route runs: it sorts the method's bindings by `index`,
    resolves each to an argument, calls the controller method and, when the
    method declares a response directive, writes the response. */
module Arguments {
  import opened RouterTypes

  /** The bindings of `s` whose index is `k`, in their order in `s`. */
  function Run(s: seq<Binding>, k: int): seq<Binding> {
    if |s| == 0 then []
    else (if s[0].index == k then [s[0]] else []) + Run(s[1..], k)
  }

  ghost predicate SortedByIndex(s: seq<Binding>) {
    forall p, q :: 0 <= p < q < |s| ==> s[p].index <= s[q].index
  }

  /** `s` and `t` hold the same bindings for every index, in the same
      relative order: `t` is a stable reordering of `s`. */
  ghost predicate SameRuns(s: seq<Binding>, t: seq<Binding>) {
    forall k :: Run(s, k) == Run(t, k)
  }

  lemma {:induction false} RunConcat(s: seq<Binding>, t: seq<Binding>, k: int)
    ensures Run(s + t, k) == Run(s, k) + Run(t, k)
  {
    if |s| == 0 {
      assert s + t == t;
    } else {
      assert (s + t)[0] == s[0];
      assert (s + t)[1..] == s[1..] + t;
      RunConcat(s[1..], t, k);
    }
  }

  /** Swapping two neighbours with different indexes keeps every run. */
  lemma SwapKeepsRuns(s: seq<Binding>, j: int)
    requires 0 < j < |s| && s[j - 1].index != s[j].index
    ensures SameRuns(s[j - 1 := s[j]][j := s[j - 1]], s)
  {
    var t := s[j - 1 := s[j]][j := s[j - 1]];
    var front, back := s[..j - 1], s[j + 1..];
    assert s == front + [s[j - 1], s[j]] + back;
    assert t == front + [s[j], s[j - 1]] + back;
    forall k ensures Run(t, k) == Run(s, k) {
      RunConcat(front + [s[j - 1], s[j]], back, k);
      RunConcat(front, [s[j - 1], s[j]], k);
      RunConcat(front + [s[j], s[j - 1]], back, k);
      RunConcat(front, [s[j], s[j - 1]], k);
      assert Run([s[j - 1], s[j]], k) == Run([s[j], s[j - 1]], k) by {
        assert [s[j - 1], s[j]][1..] == [s[j]];
        assert [s[j], s[j - 1]][1..] == [s[j - 1]];
      }
    }
  }

  lemma {:induction false} RunCounts(s: seq<Binding>, b: Binding)
    ensures multiset(Run(s, b.index))[b] == multiset(s)[b]
  {
    if |s| > 0 {
      RunCounts(s[1..], b);
      assert s == [s[0]] + s[1..];
    }
  }

  /** A stable reordering is a permutation. */
  lemma SameRunsIsPermutation(s: seq<Binding>, t: seq<Binding>)
    requires SameRuns(s, t)
    ensures multiset(s) == multiset(t)
  {
    forall b ensures multiset(s)[b] == multiset(t)[b] {
      RunCounts(s, b);
      RunCounts(t, b);
    }
  }

  lemma {:induction false} InRun(s: seq<Binding>, b: Binding)
    requires b in s
    ensures b in Run(s, b.index)
  {
    if s[0] != b {
      InRun(s[1..], b);
    }
  }

  lemma {:induction false} RunMembers(s: seq<Binding>, k: int)
    ensures forall b :: b in Run(s, k) ==> b in s && b.index == k
  {
    if |s| > 0 {
      RunMembers(s[1..], k);
    }
  }

  /** The run of a sequence's own first index starts with its first element;
      every other run skips that element. */
  lemma RunHead(s: seq<Binding>, k: int)
    requires |s| > 0
    ensures k == s[0].index ==> Run(s, k) == [s[0]] + Run(s[1..], k)
    ensures k != s[0].index ==> Run(s, k) == Run(s[1..], k)
  {
  }

  lemma SortedHeadIsLeast(s: seq<Binding>, b: Binding)
    requires SortedByIndex(s) && b in s
    ensures s[0].index <= b.index
  {
  }

  /** The order a stable sort by index produces is unique: two sorted
      stable reorderings of the same bindings are equal. So re-sorting
      bindings that are already sorted leaves them as they are. */
  lemma {:induction false} StableSortUnique(s: seq<Binding>, t: seq<Binding>)
    requires SortedByIndex(s) && SortedByIndex(t) && SameRuns(s, t)
    ensures s == t
    decreases |s|
  {
    SameRunsIsPermutation(s, t);
    assert |s| == |multiset(s)| == |multiset(t)| == |t|;
    if |s| > 0 {
      var m := s[0].index;
      InRun(s, s[0]);
      RunMembers(t, m);
      assert Run(t, m) == Run(s, m);
      assert s[0] in t;
      var n := t[0].index;
      InRun(t, t[0]);
      RunMembers(s, n);
      assert Run(s, n) == Run(t, n);
      assert t[0] in s;
      SortedHeadIsLeast(t, s[0]);
      SortedHeadIsLeast(s, t[0]);
      assert m == n;
      RunHead(s, m);
      RunHead(t, m);
      var rs, rt := [s[0]] + Run(s[1..], m), [t[0]] + Run(t[1..], m);
      assert rs == rt;
      assert rs[0] == s[0] && rt[0] == t[0];
      assert rs[1..] == Run(s[1..], m) && rt[1..] == Run(t[1..], m);
      forall k ensures Run(s[1..], k) == Run(t[1..], k) {
        RunHead(s, k);
        RunHead(t, k);
        assert Run(s, k) == Run(t, k);
      }
      StableSortUnique(s[1..], t[1..]);
      assert s == [s[0]] + s[1..];
      assert t == [t[0]] + t[1..];
    }
  }

  /** One step of the insertion sort: moves `a[i]` left past every larger
      index, so that `a[..i + 1]` is sorted. */
  method InsertAt(a: array<Binding>, i: nat)
    requires i < a.Length && SortedByIndex(a[..i])
    modifies a
    ensures SortedByIndex(a[..i + 1])
    ensures SameRuns(a[..], old(a[..]))
    ensures a[i + 1..] == old(a[i + 1..])
  {
    var j := i;
    while j > 0 && a[j - 1].index > a[j].index
      invariant 0 <= j <= i
      invariant forall p, q :: 0 <= p < q <= i && p != j && q != j ==> a[p].index <= a[q].index
      invariant forall q :: j < q <= i ==> a[j].index < a[q].index
      invariant SameRuns(a[..], old(a[..]))
      invariant a[i + 1..] == old(a[i + 1..])
    {
      ghost var before := a[..];
      SwapKeepsRuns(before, j);
      a[j - 1], a[j] := a[j], a[j - 1];
      assert a[..] == before[j - 1 := before[j]][j := before[j - 1]];
      j := j - 1;
    }
  }

  /** `params.sort((a, b) => a.index - b.index)`: a stable sort in place. */
  method SortByIndex(a: array<Binding>)
    modifies a
    ensures SortedByIndex(a[..])
    ensures SameRuns(a[..], old(a[..]))
  {
    for i := 0 to a.Length
      invariant SortedByIndex(a[..i])
      invariant SameRuns(a[..], old(a[..]))
    {
      InsertAt(a, i);
    }
    assert a[..a.Length] == a[..];
  }

  /** The switch on the binding's type: a path parameter, the whole body,
      a query value, or undefined for any other type. A missing or undefined
      parameter or query key also gives undefined. */
  function Resolve(b: Binding, params: map<string, Option<string>>, query: map<string, QueryValue>, body: Opaque): (arg: Arg)
    ensures arg.Payload? <==> b.kind == "body"
    ensures arg.Payload? ==> arg.body == body
    ensures arg.Text? <==> b.kind == "param" && b.name in params && params[b.name].Some?
    ensures arg.Text? ==> params[b.name] == Some(arg.text)
    ensures arg.Query? <==> b.kind == "query" && b.name in query
    ensures arg.Query? ==> query[b.name] == arg.value
  {
    match b.kind
    case "param" => if b.name in params && params[b.name].Some? then Text(params[b.name].value) else Undefined
    case "body" => Payload(body)
    case "query" => if b.name in query then Query(query[b.name]) else Undefined
    case _ => Undefined
  }

  const JsonType: string := "application/json"

  /** `write` is what the router writes after the handler: nothing without a
      directive; otherwise the directive's status and content type, with the
      result serialised as JSON exactly when the content type is JSON. */
  ghost predicate Responds(directive: Option<Directive>, result: Opaque, write: Option<Write>) {
    && (write.Some? <==> directive.Some?)
    && (write.Some? ==>
      && write.value.statusCode == directive.value.statusCode
      && write.value.contentType == directive.value.contentType
      && write.value.body.value == result
      && (write.value.body.Serialised? <==> directive.value.contentType == JsonType))
  }

  /** The handler closure built at registration, run against a request whose
      `params` and `query` the router has already filled in. `controller`
      stands for the controller method, called with the resolved arguments. */
  method RunHandler(h: Handler, req: Request, controller: (string, seq<Arg>) -> Opaque)
    returns (order: seq<Binding>, args: seq<Arg>, result: Opaque, write: Option<Write>)
    ensures SortedByIndex(order) && SameRuns(order, h.bindings)
    ensures |order| == |args| == |h.bindings|
    ensures forall i :: 0 <= i < |args| ==> args[i] == Resolve(order[i], req.params, req.query, req.body)
    ensures result == controller(h.action, args)
    ensures Responds(h.response, result, write)
  {
    var sorted := new Binding[|h.bindings|](i requires 0 <= i < |h.bindings| => h.bindings[i]);
    assert sorted[..] == h.bindings;
    SortByIndex(sorted);
    order := sorted[..];
    var params, query, body := req.params, req.query, req.body;
    args := seq(|order|, i requires 0 <= i < |order| => Resolve(order[i], params, query, body));
    result := controller(h.action, args);
    if h.response.Some? {
      var d := h.response.value;
      var body := if d.contentType == JsonType then Serialised(result) else Verbatim(result);
      write := Some(Write(d.statusCode, d.contentType, body));
    } else {
      write := None;
    }
  }
}
