/**
 The scheduler object itself (src/pounce/_priority.py): dictionaries of deques
 changed in place, each method tied to its effect on `Priority.Sched`.  The
 lock makes every method one atomic step, so the run theorems of `Priority`
 and `PriorityTurns` speak about interleaved callers too.
 */
module PriorityQueues {
  import opened Wrappers
  import opened Text
  import opened Priority

  datatype Part = Urgency(u: int) | Incremental | Ignored

  /** How one comma-separated part of a Priority value is read. */
  function ReadPart(raw: string, parseInt: string -> Option<int>): (r: Part)
    ensures r.Urgency? ==> 0 <= r.u <= 7
  {
    var part := Strip(raw, true);
    if StartsWith(part, "u=") then
      var u := parseInt(Strip(part[2..], true));
      if u.Some? && 0 <= u.value <= 7 then Urgency(u.value) else Ignored
    else if part == "i" then Incremental
    else Ignored
  }

  /** Of a part without outer blanks, `u=` makes an urgency if a number of 0..7 follows, `i` alone asks for turns. */
  lemma ReadPartExactly(left: string, text: string, right: string, parseInt: string -> Option<int>, u: int)
    requires Blank(left, true) && Blank(right, true) && Tight(text, true)
    ensures var r := ReadPart(left + text + right, parseInt);
            && (r == Urgency(u) <==>
                  0 <= u <= 7 && exists d :: text == "u=" + d && parseInt(Strip(d, true)) == Some(u))
            && (r == Incremental <==> text == "i")
  {
    StripDrops(left, text, right, true);
    if StartsWith(text, "u=") {
      assert text == "u=" + text[2..];
    }
    forall d | text == "u=" + d ensures StartsWith(text, "u=") && text[2..] == d {
      assert text[..2] == "u=" && text[2..] == d;
    }
  }

  lemma UrgencyPart(digits: string, parseInt: string -> Option<int>, u: int)
    requires 0 <= u <= 7 && parseInt(digits) == Some(u) && digits != "" && Tight(digits, true)
    ensures ReadPart("u=" + digits, parseInt) == Urgency(u)
  {
    var first := "u=" + digits;
    StripDrops("", digits, "", true);
    assert "" + digits + "" == digits;
    assert Tight(first, true);
    ReadPartExactly("", first, "", parseInt, u);
    assert "" + first + "" == first;
  }

  lemma IncrementalPart(parseInt: string -> Option<int>)
    ensures ReadPart(" i", parseInt) == Incremental
  {
    ReadPartExactly(" ", "i", "", parseInt, 0);
    assert " " + "i" + "" == " i";
  }

  lemma TwoParts(a: string, b: string)
    requires ',' !in a && ',' !in b
    ensures Split(a + "," + b, ',') == [a, b]
  {
    SplitConcat(a, ',', b);
    SplitWhole(a, ',');
    SplitWhole(b, ',');
    assert a + [','] + b == a + "," + b;
  }

  /** The usual form of the header: an urgency, a comma, `i`. */
  lemma UrgencyAndIncremental(digits: string, parseInt: string -> Option<int>, u: int)
    requires 0 <= u <= 7 && parseInt(digits) == Some(u)
    requires digits != "" && ',' !in digits && Tight(digits, true)
    ensures ReadParts(Split("u=" + digits + "," + " i", ','), parseInt) == [Urgency(u), Incremental]
  {
    var first := "u=" + digits;
    TwoParts(first, " i");
    UrgencyPart(digits, parseInt, u);
    IncrementalPart(parseInt);
    var parts := [first, " i"];
    assert ReadParts(parts, parseInt)[0] == ReadPart(parts[0], parseInt);
    assert ReadParts(parts, parseInt)[1] == ReadPart(parts[1], parseInt);
  }

  /** `u` is the last urgency asked for, or the default when there is none. */
  ghost predicate LastAsked(asked: seq<Part>, u: int) {
    || (u == DEFAULT_PRIORITY.urgency && forall k :: 0 <= k < |asked| ==> !asked[k].Urgency?)
    || exists k :: 0 <= k < |asked| && asked[k] == Urgency(u) && forall j :: k < j < |asked| ==> !asked[j].Urgency?
  }

  lemma LastAskedStep(asked: seq<Part>, u: int, next: Part)
    requires LastAsked(asked, u)
    ensures LastAsked(asked + [next], if next.Urgency? then next.u else u)
  {
    var more := asked + [next];
    if next.Urgency? {
      assert more[|asked|] == next;
    } else if k :| 0 <= k < |asked| && asked[k] == Urgency(u) && forall j :: k < j < |asked| ==> !asked[j].Urgency? {
      assert more[k] == Urgency(u);
    }
  }

  /** The loop of `parse_priority`: the last valid `u=` wins, any bare `i` makes it incremental. */
  method FoldParts(asked: seq<Part>) returns (r: StreamPriority)
    ensures LastAsked(asked, r.urgency)
    ensures r.incremental <==> Incremental in asked
    ensures (forall k :: 0 <= k < |asked| ==> asked[k] == Ignored) ==> r == DEFAULT_PRIORITY
  {
    var urgency, incremental := 3, false;
    for n := 0 to |asked|
      invariant incremental <==> Incremental in asked[..n]
      invariant LastAsked(asked[..n], urgency)
    {
      LastAskedStep(asked[..n], urgency, asked[n]);
      assert asked[..n] + [asked[n]] == asked[..n + 1];
      if asked[n].Urgency? {
        urgency := asked[n].u;
      } else if asked[n] == Incremental {
        incremental := true;
      }
    }
    assert asked[..|asked|] == asked;
    r := StreamPriority(urgency, incremental);
  }

  function ReadParts(parts: seq<string>, parseInt: string -> Option<int>): (asked: seq<Part>)
    ensures |asked| == |parts|
    ensures forall k :: 0 <= k < |asked| ==> asked[k] == ReadPart(parts[k], parseInt)
  {
    if parts == [] then [] else [ReadPart(parts[0], parseInt)] + ReadParts(parts[1..], parseInt)
  }

  method ParsePriority(value: string, parseInt: string -> Option<int>) returns (r: StreamPriority)
    ensures 0 <= r.urgency <= 7
    ensures LastAsked(ReadParts(Split(value, ','), parseInt), r.urgency)
    ensures r.incremental <==> Incremental in ReadParts(Split(value, ','), parseInt)
  {
    r := FoldParts(ReadParts(Split(value, ','), parseInt));
  }

  /** `_remove_from_ready` over one dictionary: stop at the first deque that holds the stream. */
  method RemoveFirst(b: Buckets, x: int) returns (b': Buckets, found: bool)
    requires forall u :: u in b ==> NoDup(b[u])
    requires forall u, v :: u in b && v in b && x in b[u] && x in b[v] ==> u == v
    ensures b' == DropFrom(b, x)
    ensures found <==> exists u :: u in b && x in b[u]
  {
    var todo := b.Keys;
    while todo != {}
      invariant todo <= b.Keys
      invariant forall u :: u in b && u !in todo ==> x !in b[u]
      decreases todo
    {
      var u := Least(todo);
      if x in b[u] {
        forall v | v in b && v != u ensures Without(b[v], x) == b[v] {
          WithoutMembers(b[v], x);
        }
        return b[u := Without(b[u], x)], true;
      }
      todo := todo - {u};
    }
    DropNothing(b, x);
    return b, false;
  }

  class Scheduler {
    var priorities: map<int, StreamPriority>
    var readyNoninc: Buckets
    var readyInc: Buckets
    var turn: map<int, nat>
    var events: seq<bool>

    function Model(): Sched
      reads this
    {
      Sched(priorities, readyNoninc, readyInc, turn, events)
    }

    constructor ()
      ensures Model() == EMPTY && Inv(Model())
    {
      priorities, readyNoninc, readyInc, turn, events := map[], map[], map[], map[], [];
    }

    method AddToReady(x: int, p: StreamPriority)
      modifies this`readyNoninc, this`readyInc
      ensures Model() == AddReady(old(Model()), x, p)
    {
      var bucket := if p.incremental then readyInc else readyNoninc;
      if p.urgency !in bucket {
        bucket := bucket[p.urgency := []];
      }
      var queue := bucket[p.urgency];
      if x !in queue {
        bucket := bucket[p.urgency := queue + [x]];
      }
      assert bucket == Enqueue(if p.incremental then readyInc else readyNoninc, p.urgency, x);
      if p.incremental {
        readyInc := bucket;
      } else {
        readyNoninc := bucket;
      }
    }

    method RemoveFromReady(x: int) returns (found: bool)
      requires Inv(Model())
      modifies this`readyNoninc, this`readyInc
      ensures Model() == Unready(old(Model()), x)
      ensures found <==> old(Ready(Model(), x))
    {
      ghost var s := Model();
      BucketsOk(s, x);
      readyNoninc, found := RemoveFirst(readyNoninc, x);
      if found {
        DropNothing(readyInc, x);
        return;
      }
      readyInc, found := RemoveFirst(readyInc, x);
    }

    /** `_peek_locked` and `next_stream`: walk the urgencies in ascending order. */
    method NextStream() returns (r: Option<int>)
      ensures r == Peek(Model())
    {
      var urgencies := readyNoninc.Keys + readyInc.Keys;
      while urgencies != {}
        invariant PeekIn(readyNoninc, readyInc, urgencies) == Peek(Model())
        decreases urgencies
      {
        var u := Least(urgencies);
        if u in readyNoninc && readyNoninc[u] != [] {
          return Some(readyNoninc[u][0]);
        }
        if u in readyInc && readyInc[u] != [] {
          return Some(readyInc[u][0]);
        }
        urgencies := urgencies - {u};
      }
      return None;
    }

    method WakeCurrent()
      requires TurnsOk(Model())
      modifies this`events
      ensures Model() == Wake(old(Model()))
    {
      ghost var s := Model();
      var picked := NextStream();
      if picked.Some? && picked.value in turn {
        assert picked.value in s.turn && s.turn[picked.value] < |s.events|;
        events := events[turn[picked.value] := true];
      }
    }

    method SetPriority(x: int, p: StreamPriority)
      requires Inv(Model())
      modifies this
      ensures Model() == Apply(old(Model()), Op.SetPriority(x, p)) && Inv(Model())
    {
      ghost var s := Model();
      CallKeepsInv(s, Op.SetPriority(x, p));
      var wasScheduled := RemoveFromReady(x);
      priorities := priorities[x := p];
      if wasScheduled {
        AddToReady(x, p);
      }
      WakeCurrent();
    }

    method GetPriority(x: int) returns (p: StreamPriority)
      ensures p == PriorityOf(Model(), x)
    {
      p := if x in priorities then priorities[x] else DEFAULT_PRIORITY;
    }

    method Schedule(x: int)
      requires Inv(Model())
      modifies this
      ensures Model() == Apply(old(Model()), Op.Schedule(x)) && Inv(Model())
    {
      CallKeepsInv(Model(), Op.Schedule(x));
      var p := GetPriority(x);
      AddToReady(x, p);
      WakeCurrent();
    }

    method Unschedule(x: int)
      requires Inv(Model())
      modifies this
      ensures Model() == Apply(old(Model()), Op.Unschedule(x)) && Inv(Model())
    {
      CallKeepsInv(Model(), Op.Unschedule(x));
      var _ := RemoveFromReady(x);
      WakeCurrent();
    }

    method MarkWrote(x: int)
      requires Inv(Model())
      modifies this
      ensures Model() == Apply(old(Model()), Op.MarkWrote(x)) && Inv(Model())
    {
      CallKeepsInv(Model(), Op.MarkWrote(x));
      if x !in priorities || !priorities[x].incremental {
        return;
      }
      var u := priorities[x].urgency;
      if u in readyInc && readyInc[u] != [] && readyInc[u][0] == x {
        readyInc := readyInc[u := readyInc[u][1..] + [x]];
        WakeCurrent();
      }
    }

    /** The locked half of `remove_stream`; `popped` is the event still to be set. */
    method RemoveStream(x: int) returns (popped: Option<nat>)
      requires Inv(Model())
      modifies this
      ensures Model() == Apply(old(Model()), Op.RemoveStream(x)) && Inv(Model())
      ensures popped == old(if x in turn then Some(turn[x]) else None)
    {
      CallKeepsInv(Model(), Op.RemoveStream(x));
      var _ := RemoveFromReady(x);
      priorities := priorities - {x};
      popped := if x in turn then Some(turn[x]) else None;
      turn := turn - {x};
      WakeCurrent();
    }

    /** One pass of the `await_turn` loop: None to return, or the cleared event to wait on. */
    method AwaitTurn(x: int) returns (wait: Option<nat>)
      requires Inv(Model())
      modifies this`turn, this`events
      ensures wait == None <==> old(x !in priorities || Peek(Model()) == Some(x))
      ensures wait == None ==> Model() == old(Model())
      ensures wait.Some? ==> Model() == Park(old(Model()), x) && turn[x] == wait.value && !events[turn[x]]
    {
      if x !in priorities {
        return None;
      }
      var picked := NextStream();
      if picked == Some(x) {
        return None;
      }
      if x !in turn {
        turn := turn[x := |events|];
        events := events + [false];
      } else {
        events := events[turn[x] := false];
      }
      return Some(turn[x]);
    }

    method HasPending() returns (r: bool)
      requires Inv(Model())
      ensures r <==> exists y :: Ready(Model(), y)
    {
      r := (exists u :: u in readyNoninc && readyNoninc[u] != []) || (exists u :: u in readyInc && readyInc[u] != []);
      ghost var s := Model();
      if u :| u in readyNoninc && readyNoninc[u] != [] {
        assert readyNoninc[u][0] in Queue(s, StreamPriority(u, false));
        assert Ready(s, readyNoninc[u][0]);
      } else if u :| u in readyInc && readyInc[u] != [] {
        assert readyInc[u][0] in Queue(s, StreamPriority(u, true));
        assert Ready(s, readyInc[u][0]);
      }
    }
  }

  lemma DropNothing(b: Buckets, x: int)
    requires forall u :: u in b ==> NoDup(b[u]) && x !in b[u]
    ensures DropFrom(b, x) == b
  {
    forall u | u in b ensures Without(b[u], x) == b[u] {
      WithoutMembers(b[u], x);
    }
  }

  lemma BucketsOk(s: Sched, x: int)
    requires QueuesOk(s)
    ensures forall u :: u in s.noninc ==> NoDup(s.noninc[u]) && (x in s.noninc[u] ==> PriorityOf(s, x) == StreamPriority(u, false))
    ensures forall u :: u in s.inc ==> NoDup(s.inc[u]) && (x in s.inc[u] ==> PriorityOf(s, x) == StreamPriority(u, true))
  {
    forall u | u in s.noninc
      ensures NoDup(s.noninc[u]) && (x in s.noninc[u] ==> PriorityOf(s, x) == StreamPriority(u, false))
    {
      assert s.noninc[u] == Queue(s, StreamPriority(u, false));
    }
    forall u | u in s.inc
      ensures NoDup(s.inc[u]) && (x in s.inc[u] ==> PriorityOf(s, x) == StreamPriority(u, true))
    {
      assert s.inc[u] == Queue(s, StreamPriority(u, true));
    }
  }
}
