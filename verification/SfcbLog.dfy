/** The abstract value of the store: a log of committed entries, oldest first,
    where the newest entry of an id decides its value and an entry without data
    acts as a deletion. */
module SfcbLog {
  import opened FlashBytes

  datatype Entry = Entry(id: nat, data: seq<byte>)

  ghost predicate Has(log: seq<Entry>, id: nat) {
    exists i :: 0 <= i < |log| && log[i].id == id
  }

  /** The data of the newest entry of `id`; empty when there is none. */
  ghost function Value(log: seq<Entry>, id: nat): seq<byte> {
    if log == [] then []
    else if log[|log| - 1].id == id then log[|log| - 1].data
    else Value(log[..|log| - 1], id)
  }

  /** Both logs give every id the same value. */
  ghost predicate SameView(a: seq<Entry>, b: seq<Entry>) {
    forall id: nat :: Value(a, id) == Value(b, id)
  }

  lemma {:induction false} ValueIsNewest(log: seq<Entry>, i: nat)
    requires i < |log|
    requires forall j :: i < j < |log| ==> log[j].id != log[i].id
    ensures Value(log, log[i].id) == log[i].data
  {
    if i < |log| - 1 {
      ValueIsNewest(log[..|log| - 1], i);
    }
  }

  lemma {:induction false} ValueAbsent(log: seq<Entry>, id: nat)
    requires !Has(log, id)
    ensures Value(log, id) == []
  {
    if log != [] {
      var front := log[..|log| - 1];
      assert log[|log| - 1].id != id;
      forall i | 0 <= i < |front| ensures front[i].id != id { assert front[i] == log[i]; }
      ValueAbsent(front, id);
    }
  }

  lemma {:induction false} ValueConcat(a: seq<Entry>, b: seq<Entry>, id: nat)
    ensures Value(a + b, id) == if Has(b, id) then Value(b, id) else Value(a, id)
  {
    if b == [] {
      assert a + b == a;
    } else {
      var front := b[..|b| - 1];
      var last := b[|b| - 1];
      assert (a + b)[..|a + b| - 1] == a + front;
      if last.id != id {
        ValueConcat(a, front, id);
        assert Has(b, id) == Has(front, id) by {
          if Has(b, id) {
            var i :| 0 <= i < |b| && b[i].id == id;
            assert front[i].id == id;
          }
          if Has(front, id) {
            var i :| 0 <= i < |front| && front[i].id == id;
            assert b[i].id == id;
          }
        }
      }
    }
  }

  lemma HasConcat(a: seq<Entry>, b: seq<Entry>, id: nat)
    ensures Has(a + b, id) == (Has(a, id) || Has(b, id))
  {
    if Has(a, id) {
      var i :| 0 <= i < |a| && a[i].id == id;
      assert (a + b)[i].id == id;
    }
    if Has(b, id) {
      var i :| 0 <= i < |b| && b[i].id == id;
      assert (a + b)[|a| + i].id == id;
    }
  }

  /** Appending the same entry to two logs of equal view keeps the views equal. */
  lemma SameViewAppend(a: seq<Entry>, b: seq<Entry>, e: Entry)
    requires SameView(a, b)
    ensures SameView(a + [e], b + [e])
  {
    forall id: nat ensures Value(a + [e], id) == Value(b + [e], id) {
      assert (a + [e])[..|a|] == a && (b + [e])[..|b|] == b;
    }
  }

  /** Appending a copy of the current value of an id changes no value. */
  lemma AppendCopy(log: seq<Entry>, e: Entry)
    requires Value(log, e.id) == e.data
    ensures SameView(log + [e], log)
  {
    assert (log + [e])[..|log|] == log;
  }

  // Keep-newest compression, seen on logs: `done` and `todo` are the entries of
  // the sector being compressed, `rest` is everything behind it.

  /** Every id without an entry in `todo` has its value in `rest` already. */
  ghost predicate Settled(done: seq<Entry>, todo: seq<Entry>, rest: seq<Entry>) {
    forall id: nat :: !Has(todo, id) ==> Value(done + todo + rest, id) == Value(rest, id)
  }

  lemma SettledStart(todo: seq<Entry>, rest: seq<Entry>)
    ensures Settled([], todo, rest)
  {
    forall id: nat | !Has(todo, id)
      ensures Value([] + todo + rest, id) == Value(rest, id)
    {
      assert [] + todo + rest == todo + rest;
      ValueConcat(todo, rest, id);
      if !Has(rest, id) {
        ValueAbsent(todo, id);
        ValueAbsent(rest, id);
      }
    }
  }

  lemma SettledEnd(done: seq<Entry>, rest: seq<Entry>)
    requires Settled(done, [], rest)
    ensures SameView(done + rest, rest)
  {
    forall id: nat ensures Value(done + rest, id) == Value(rest, id) {
      assert done + [] + rest == done + rest;
      assert !Has([], id);
    }
  }

  /** An entry that is skipped, because a newer one exists or because it is empty. */
  lemma SettledSkip(done: seq<Entry>, e: Entry, todo: seq<Entry>, rest: seq<Entry>)
    requires Settled(done, [e] + todo, rest)
    requires Has(todo + rest, e.id) || e.data == []
    ensures Settled(done + [e], todo, rest)
  {
    var full := done + ([e] + todo) + rest;
    assert done + [e] + todo + rest == full;
    forall id: nat | !Has(todo, id)
      ensures Value(full, id) == Value(rest, id)
    {
      HasConcat([e], todo, id);
      if id != e.id {
        assert !Has([e], id);
      } else {
        HasConcat(todo, rest, id);
        NewestInSuffix(done, e, todo, rest);
      }
    }
  }

  /** If `todo` holds no newer entry, the value is that of `rest`, or else `e` itself. */
  lemma NewestInSuffix(done: seq<Entry>, e: Entry, todo: seq<Entry>, rest: seq<Entry>)
    requires !Has(todo, e.id)
    ensures Value(done + ([e] + todo) + rest, e.id) == if Has(rest, e.id) then Value(rest, e.id) else e.data
    ensures !Has(rest, e.id) ==> Value(rest, e.id) == []
  {
    var log := done + ([e] + todo) + rest;
    ValueConcat(done + ([e] + todo), rest, e.id);
    if !Has(rest, e.id) {
      ValueAbsent(rest, e.id);
      var i := |done|;
      forall j | i < j < |log| ensures log[j].id != e.id {
        if j < |done| + 1 + |todo| {
          assert log[j] == todo[j - i - 1];
        } else {
          assert log[j] == rest[j - i - 1 - |todo|];
        }
      }
      ValueIsNewest(log, i);
    }
  }

  /** An entry that is copied to the end, because nothing newer exists. */
  lemma SettledCopy(done: seq<Entry>, e: Entry, todo: seq<Entry>, rest: seq<Entry>)
    requires Settled(done, [e] + todo, rest)
    requires !Has(todo + rest, e.id)
    ensures Settled(done + [e], todo, rest + [e])
    ensures SameView(done + ([e] + todo) + rest + [e], done + ([e] + todo) + rest)
  {
    var full := done + ([e] + todo) + rest;
    HasConcat(todo, rest, e.id);
    NewestInSuffix(done, e, todo, rest);
    AppendCopy(full, e);
    assert done + [e] + todo + (rest + [e]) == full + [e];
    forall id: nat | !Has(todo, id)
      ensures Value(full + [e], id) == Value(rest + [e], id)
    {
      assert (rest + [e])[..|rest|] == rest && (full + [e])[..|full|] == full;
      if id != e.id {
        HasConcat([e], todo, id);
        assert !Has([e], id);
      }
    }
  }

  // What is copied

  /** Of the entries `todo`, with `rest` behind them, those with data and no newer entry of
      their id. */
  ghost function Live(todo: seq<Entry>, rest: seq<Entry>): seq<Entry> {
    if todo == [] then []
    else (if todo[0].data != [] && !Has(todo[1..] + rest, todo[0].id) then [todo[0]] else []) + Live(todo[1..], rest)
  }

  ghost predicate NoneIn(entries: seq<Entry>, log: seq<Entry>) {
    forall i :: 0 <= i < |entries| ==> !Has(log, entries[i].id)
  }

  /** Entries of other ids behind them do not matter. */
  lemma {:induction false} LiveMore(todo: seq<Entry>, rest: seq<Entry>, more: seq<Entry>)
    requires NoneIn(more, todo)
    ensures Live(todo, rest + more) == Live(todo, rest)
  {
    hide Has;
    if todo != [] {
      var e, tail := todo[0], todo[1..];
      assert [e] + tail == todo && tail + (rest + more) == tail + rest + more;
      forall i | 0 <= i < |more| ensures more[i].id != e.id && !Has(tail, more[i].id) {
        HasConcat([e], tail, more[i].id);
        HasOne(e, more[i].id);
      }
      LiveMore(tail, rest, more);
      HasConcat(tail + rest, more, e.id);
      HasSome(more, e.id);
    }
  }

  lemma HasOne(e: Entry, id: nat)
    ensures Has([e], id) <==> e.id == id
  {
    assert [e][0] == e;
  }

  lemma HasSome(log: seq<Entry>, id: nat)
    ensures Has(log, id) <==> exists i :: 0 <= i < |log| && log[i].id == id
  {
  }

  /** Copying the first entry, or not, leaves the others to be copied as before. */
  lemma LiveStep(e: Entry, todo: seq<Entry>, rest: seq<Entry>, copies: seq<Entry>)
    requires copies == if e.data != [] && !Has(todo + rest, e.id) then [e] else []
    ensures Live([e] + todo, rest) == copies + Live(todo, rest + copies)
  {
    hide Has;
    assert ([e] + todo)[1..] == todo;
    HasConcat(todo, rest, e.id);
    LiveMore(todo, rest, copies);
  }

  /** The copies have no newer entry behind them. */
  lemma {:induction false} LiveIsNewest(todo: seq<Entry>, rest: seq<Entry>)
    ensures NoneIn(Live(todo, rest), rest)
  {
    hide Has;
    if todo != [] {
      LiveIsNewest(todo[1..], rest);
      HasConcat(todo[1..], rest, todo[0].id);
    }
  }

  lemma {:induction false} LiveValue(todo: seq<Entry>, rest: seq<Entry>, id: nat)
    requires !Has(rest, id)
    ensures Value(Live(todo, rest), id) == Value(todo, id)
  {
    hide Has, Value;
    if todo != [] {
      var e, tail := todo[0], todo[1..];
      var here, later := if e.data != [] && !Has(tail + rest, e.id) then [e] else [], Live(tail, rest);
      assert todo == [e] + tail;
      LiveValue(tail, rest, id);
      ValueConcat(here, later, id);
      ValueConcat([e], tail, id);
      HasConcat(tail, rest, id);
      ValueOfOne(e, id);
      ValueOfNone(id);
      if Has(later, id) {
        LiveHas(tail, rest, id);
      } else {
        ValueAbsent(later, id);
      }
      if !Has(tail, id) {
        ValueAbsent(tail, id);
      }
    }
  }

  lemma ValueOfOne(e: Entry, id: nat)
    ensures Value([e], id) == if e.id == id then e.data else []
  {
    assert [e][..0] == [];
  }

  lemma ValueOfNone(id: nat)
    ensures Value([], id) == []
  {
  }

  lemma {:induction false} LiveHas(todo: seq<Entry>, rest: seq<Entry>, id: nat)
    requires Has(Live(todo, rest), id)
    ensures Has(todo, id)
  {
    hide Has;
    if todo != [] {
      var e, tail := todo[0], todo[1..];
      var here := if e.data != [] && !Has(tail + rest, e.id) then [e] else [];
      assert todo == [e] + tail;
      HasConcat([e], tail, id);
      HasConcat(here, Live(tail, rest), id);
      HasOne(e, id);
      HasSome([], id);
      if Has(Live(tail, rest), id) {
        LiveHas(tail, rest, id);
      }
    } else {
      HasSome([], id);
    }
  }

  /** Keeping the newest: copies of the live entries of a sector replace it. */
  lemma LiveReplaces(todo: seq<Entry>, rest: seq<Entry>)
    ensures SameView(rest + Live(todo, rest), todo + rest)
  {
    hide Has, Value, Live;
    LiveIsNewest(todo, rest);
    var live := Live(todo, rest);
    forall id: nat ensures Value(rest + live, id) == Value(todo + rest, id) {
      ValueConcat(rest, live, id);
      ValueConcat(todo, rest, id);
      if Has(rest, id) {
        HasSome(live, id);
      } else {
        LiveValue(todo, rest, id);
        ValueAbsent(rest, id);
        if !Has(live, id) {
          ValueAbsent(live, id);
        }
      }
    }
  }

  /** And none of them can be left out: without the copy of an id it has no value any more. */
  lemma {:induction false} LiveIsNeeded(todo: seq<Entry>, rest: seq<Entry>, i: nat)
    requires i < |Live(todo, rest)|
    ensures var live := Live(todo, rest);
      && Value(todo + rest, live[i].id) == live[i].data != []
      && Value(rest + live[..i] + live[i + 1..], live[i].id) == []
  {
    var live := Live(todo, rest);
    LiveIsNewest(todo, rest);
    LiveApart(todo, rest, i);
    LiveReplaces(todo, rest);
    var e, others := live[i], rest + live[..i] + live[i + 1..];
    HasConcat(rest + live[..i], live[i + 1..], e.id);
    HasConcat(rest, live[..i], e.id);
    ValueAbsent(others, e.id);
    var all := rest + live;
    assert all[|rest| + i] == e;
    forall j | |rest| + i < j < |all| ensures all[j].id != e.id {
      assert all[j] == live[i + 1..][j - |rest| - i - 1];
    }
    ValueIsNewest(all, |rest| + i);
  }

  lemma {:induction false} LiveApart(todo: seq<Entry>, rest: seq<Entry>, i: nat)
    requires i < |Live(todo, rest)|
    ensures var live := Live(todo, rest); live[i].data != [] && !Has(live[..i], live[i].id) && !Has(live[i + 1..], live[i].id)
  {
    if todo != [] {
      var e, tail := todo[0], todo[1..];
      var live, later := Live(todo, rest), Live(tail, rest);
      if live != later {
        assert live == [e] + later;
        HasConcat(tail, rest, e.id);
        forall j | 0 <= j < |later| ensures later[j].id != e.id {
          assert Has(later, later[j].id);
          LiveHas(tail, rest, later[j].id);
        }
        if i > 0 {
          LiveApart(tail, rest, i - 1);
          assert live[i] == later[i - 1] && live[i + 1..] == later[i..] && live[..i] == [e] + later[..i - 1];
          HasConcat([e], later[..i - 1], live[i].id);
        }
      } else {
        LiveApart(tail, rest, i);
      }
    }
  }
}
