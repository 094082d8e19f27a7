/** The settings backend on top of the store: "name=value" entries under one id, of which
    loading hands the newest of each name to the settings subsystem. */
module SfcbSettings {
  import opened FlashBytes
  import opened SfcbLog
  import opened SfcbFlash
  import opened SfcbSector
  import opened SfcbRing
  import opened SfcbSteps
  import opened SfcbStore

  /** SETTINGS_SFCB_ID */
  const SETTINGS_ID: nat := 0xffff
  const EQUALS: byte := 0x3d

  /** A parsed entry: the name as a C string, where its '=' is, and the value. */
  datatype Item = Item(name: seq<byte>, nameLen: nat, value: seq<byte>)

  /** A call of the settings handler. */
  datatype Call = Call(name: seq<byte>, value: seq<byte>)

  /** A string as C functions see it: up to the first NUL. */
  function CString(s: seq<byte>): (r: seq<byte>)
    ensures |r| <= |s| && 0 !in r
  {
    if s == [] || s[0] == 0 then [] else [s[0]] + CString(s[1..])
  }

  /** Index of the first '='; the length when there is none. */
  function FirstEquals(s: seq<byte>): (i: nat)
    ensures i <= |s|
    ensures EQUALS !in s[..i]
    ensures i < |s| ==> s[i] == EQUALS
  {
    if s == [] || s[0] == EQUALS then 0
    else
      assert s[..1 + FirstEquals(s[1..])] == [s[0]] + s[1..][..FirstEquals(s[1..])];
      1 + FirstEquals(s[1..])
  }

  /** The first bytes that fit the name buffer. */
  function Head(buf: nat, data: seq<byte>): seq<byte> {
    if |data| < buf then data else data[..buf]
  }

  /** What an entry holds, when its name fits the buffer. */
  function Parse(buf: nat, data: seq<byte>): Option<Item> {
    var i := FirstEquals(Head(buf, data));
    if i == |Head(buf, data)| then None
    else Some(Item(CString(data[..i]), i, data[i + 1..]))
  }

  function ItemOf(buf: nat, e: Entry): Option<Item> {
    if e.id == SETTINGS_ID then Parse(buf, e.data) else None
  }

  /** The settings in a log, oldest first. */
  function Items(buf: nat, log: seq<Entry>): seq<Item> {
    if log == [] then []
    else (match ItemOf(buf, log[0]) case Some(item) => [item] case None => []) + Items(buf, log[1..])
  }

  /** Does a later item with a non-empty name have this name? */
  ghost predicate Replaced(name: seq<byte>, later: seq<Item>) {
    exists j :: 0 <= j < |later| && later[j].nameLen > 0 && later[j].name == name
  }

  /** The handler calls that loading makes. */
  ghost function Calls(items: seq<Item>): seq<Call> {
    if items == [] then []
    else (if items[0].value != [] && !Replaced(items[0].name, items[1..])
          then [Call(items[0].name, items[0].value)] else []) + Calls(items[1..])
  }

  /** The calls for one name. */
  ghost function CallsFor(calls: seq<Call>, name: seq<byte>): seq<Call> {
    if calls == [] then []
    else (if calls[0].name == name then [calls[0]] else []) + CallsFor(calls[1..], name)
  }

  /** The value of the newest item of a name; empty when there is none. */
  ghost function NewestValue(items: seq<Item>, name: seq<byte>): seq<byte> {
    if items == [] then []
    else if items[|items| - 1].name == name then items[|items| - 1].value
    else NewestValue(items[..|items| - 1], name)
  }

  /** One call, or none for a deleted name. */
  function CallIfSet(name: seq<byte>, value: seq<byte>): seq<Call> {
    if value == [] then [] else [Call(name, value)]
  }

  lemma {:induction false} CallsForConcat(a: seq<Call>, b: seq<Call>, name: seq<byte>)
    ensures CallsFor(a + b, name) == CallsFor(a, name) + CallsFor(b, name)
  {
    if a == [] {
      assert a + b == b;
    } else {
      assert (a + b)[1..] == a[1..] + b;
      CallsForConcat(a[1..], b, name);
      hide CallsFor;
      assert (if a[0].name == name then [a[0]] else []) + (CallsFor(a[1..], name) + CallsFor(b, name))
          == (if a[0].name == name then [a[0]] else []) + CallsFor(a[1..], name) + CallsFor(b, name);
    }
  }

  ghost predicate NamesOk(items: seq<Item>) {
    forall i :: 0 <= i < |items| ==> |items[i].name| <= items[i].nameLen
  }

  lemma {:induction false} NewestOfLater(first: Item, later: seq<Item>, name: seq<byte>)
    requires name != [] && NamesOk([first] + later)
    ensures NewestValue([first] + later, name) ==
      if Replaced(name, later) then NewestValue(later, name) else if first.name == name then first.value else []
    ensures !Replaced(name, later) ==> NewestValue(later, name) == []
  {
    var all := [first] + later;
    if later == [] {
      assert all[..0] == [];
    } else {
      var n := |later| - 1;
      assert all[..|all| - 1] == [first] + later[..n];
      forall i | 0 <= i < |all| - 1 ensures |([first] + later[..n])[i].name| <= ([first] + later[..n])[i].nameLen {
        assert ([first] + later[..n])[i] == all[i];
      }
      NewestOfLater(first, later[..n], name);
      assert all[|all| - 1] == later[n] && |later[n].name| <= later[n].nameLen;
      if Replaced(name, later[..n]) {
        var j :| 0 <= j < n && later[..n][j].nameLen > 0 && later[..n][j].name == name;
        assert later[j].name == name;
      }
      if Replaced(name, later) && later[n].name != name {
        var j :| 0 <= j < |later| && later[j].nameLen > 0 && later[j].name == name;
        assert later[..n][j].name == name;
      }
    }
  }

  /** Loading calls the handler exactly once for every non-empty name whose newest entry has
      a value, with that value, and never for one whose newest entry is a deletion. */
  lemma {:induction false} LoadCallsNewest(items: seq<Item>, name: seq<byte>)
    requires name != [] && NamesOk(items)
    ensures CallsFor(Calls(items), name) == CallIfSet(name, NewestValue(items, name))
  {
    if items != [] {
      var first, later := items[0], items[1..];
      assert items == [first] + later;
      LoadCallsNewest(later, name);
      NewestOfLater(first, later, name);
      var head := if first.value != [] && !Replaced(first.name, later) then [Call(first.name, first.value)] else [];
      CallsForConcat(head, Calls(later), name);
      assert CallsFor(head, name) == if head != [] && first.name == name then head else [];
    }
  }

  // The empty name, which is never recognised as replaced

  ghost predicate HasUnnamed(items: seq<Item>) {
    items != [] && (items[0].name == [] || HasUnnamed(items[1..]))
  }

  /** No item with the empty name and a value is followed by one with the empty name. */
  ghost predicate UnnamedOnce(items: seq<Item>) {
    items != [] ==>
      (items[0].name == [] && items[0].value != [] ==> !HasUnnamed(items[1..])) && UnnamedOnce(items[1..])
  }

  lemma {:induction false} HasUnnamedLast(items: seq<Item>, last: Item)
    ensures HasUnnamed(items + [last]) == (HasUnnamed(items) || last.name == [])
  {
    if items == [] {
      assert [last][1..] == [];
    } else {
      assert (items + [last])[1..] == items[1..] + [last];
      HasUnnamedLast(items[1..], last);
    }
  }

  lemma {:induction false} NewestUnnamed(first: Item, later: seq<Item>)
    ensures NewestValue([first] + later, []) ==
      if HasUnnamed(later) then NewestValue(later, []) else if first.name == [] then first.value else []
    ensures !HasUnnamed(later) ==> NewestValue(later, []) == []
  {
    var all := [first] + later;
    if later == [] {
      assert all[..0] == [];
    } else {
      var n := |later| - 1;
      assert all[..|all| - 1] == [first] + later[..n];
      assert later == later[..n] + [later[n]];
      HasUnnamedLast(later[..n], later[n]);
      NewestUnnamed(first, later[..n]);
    }
  }

  /** For the empty name, load makes one call with the newest value if and only if no older
      value of it is left in the log. */
  lemma {:induction false} EmptyNameCalls(items: seq<Item>)
    requires forall i :: 0 <= i < |items| && items[i].name == [] ==> items[i].nameLen == 0
    ensures CallsFor(Calls(items), []) == CallIfSet([], NewestValue(items, [])) <==> UnnamedOnce(items)
    ensures CallsFor(Calls(items), []) == [] ==> NewestValue(items, []) == []
  {
    if items != [] {
      var first, later := items[0], items[1..];
      EmptyNameCalls(later);
      assert items == [first] + later;
      NewestUnnamed(first, later);
      if !HasUnnamed(later) {
        NoUnnamedCalls(later);
      }
      var head := if first.value != [] && !Replaced(first.name, later) then [Call(first.name, first.value)] else [];
      CallsForConcat(head, Calls(later), []);
      assert CallsFor(head, []) == if head != [] && first.name == [] then head else [];
      assert |CallIfSet([], NewestValue(items, []))| <= 1;
    }
  }

  lemma {:induction false} NoUnnamedCalls(items: seq<Item>)
    requires !HasUnnamed(items)
    ensures CallsFor(Calls(items), []) == []
  {
    if items != [] {
      NoUnnamedCalls(items[1..]);
      var head := if items[0].value != [] && !Replaced(items[0].name, items[1..]) then [Call(items[0].name, items[0].value)] else [];
      CallsForConcat(head, Calls(items[1..]), []);
      assert CallsFor(head, []) == [];
    }
  }

  /** Two values saved under the empty name are both handed over. */
  lemma EmptyNameIsRepeated(buf: nat, a: seq<byte>, b: seq<byte>)
    requires buf > 0 && a != [] && b != []
    ensures var log := [Entry(SETTINGS_ID, [] + [EQUALS] + a), Entry(SETTINGS_ID, [] + [EQUALS] + b)];
      CallsFor(Calls(Items(buf, log)), []) == [Call([], a), Call([], b)]
  {
    var x, y := Entry(SETTINGS_ID, [] + [EQUALS] + a), Entry(SETTINGS_ID, [] + [EQUALS] + b);
    SavedIsParsed(buf, [], a);
    SavedIsParsed(buf, [], b);
    assert [x, y][1..] == [y] && [y][1..] == [];
    assert Items(buf, [y]) == [Item([], 0, b)];
    assert Items(buf, [x, y]) == [Item([], 0, a), Item([], 0, b)];
    UnnamedTwice(a, b);
  }

  lemma UnnamedTwice(a: seq<byte>, b: seq<byte>)
    requires a != [] && b != []
    ensures CallsFor(Calls([Item([], 0, a), Item([], 0, b)]), []) == [Call([], a), Call([], b)]
  {
    var items := [Item([], 0, a), Item([], 0, b)];
    assert items[1..] == [Item([], 0, b)];
    assert items[1..][1..] == [];
    assert Calls(items[1..]) == [Call([], b)];
    assert Calls(items) == [Call([], a), Call([], b)];
    assert Calls(items)[1..] == [Call([], b)];
    assert CallsFor([Call([], b)], []) == [Call([], b)];
  }

  lemma {:induction false} ItemsNamesOk(buf: nat, log: seq<Entry>)
    ensures NamesOk(Items(buf, log))
  {
    if log != [] {
      ItemsNamesOk(buf, log[1..]);
    }
  }

  lemma {:induction false} FirstEqualsIs(s: seq<byte>, n: nat)
    requires n < |s| && s[n] == EQUALS && EQUALS !in s[..n]
    ensures FirstEquals(s) == n
  {
    if n > 0 {
      assert s[0] == s[..n][0];
      assert s[1..][..n - 1] == s[..n][1..];
      FirstEqualsIs(s[1..], n - 1);
    }
  }

  lemma {:induction false} CStringIs(s: seq<byte>)
    requires 0 !in s
    ensures CString(s) == s
  {
    if s != [] {
      CStringIs(s[1..]);
    }
  }

  /** What is saved is what is parsed, for names that are C strings without '=' and fit. */
  lemma SavedIsParsed(buf: nat, name: seq<byte>, value: seq<byte>)
    requires EQUALS !in name && 0 !in name && |name| < buf
    ensures Parse(buf, name + [EQUALS] + value) == Some(Item(name, |name|, value))
  {
    var data := name + [EQUALS] + value;
    var head := Head(buf, data);
    assert head[..|name|] == name && head[|name|] == EQUALS;
    FirstEqualsIs(head, |name|);
    assert data[..|name|] == name && data[|name| + 1..] == value;
    CStringIs(name);
  }

  // Settings as the entries have them

  /** A setting of this name, with its first equals sign at `i`, within the name buffer: the
      bytes before it are the name, up to a NUL if there is one. */
  ghost predicate Names(buf: nat, e: Entry, name: seq<byte>, i: nat) {
    && e.id == 0xffff && i < |e.data| && i < buf && e.data[i] == 0x3d && 0x3d !in e.data[..i]
    && 0 !in name && |name| <= i && e.data[..|name|] == name && (|name| < i ==> e.data[|name|] == 0)
  }

  /** One call, with the name and the value behind that equals sign. */
  ghost predicate CallsAt(buf: nat, e: Entry, calls: seq<Call>, i: nat) {
    i + 1 < |e.data| && |calls| == 1 && Names(buf, e, calls[0].name, i) && calls[0].value == e.data[i + 1..]
  }

  ghost predicate NamedIn(buf: nat, log: seq<Entry>, name: seq<byte>) {
    exists n: nat, i: nat :: n < |log| && Names(buf, log[n], name, i)
  }

  /** Entry `n` is the newest setting of this name. */
  ghost predicate NewestNamed(buf: nat, log: seq<Entry>, name: seq<byte>, n: nat, i: nat) {
    n < |log| && Names(buf, log[n], name, i) && !NamedIn(buf, log[n + 1..], name)
  }

  lemma {:induction false} CStringEnds(s: seq<byte>, name: seq<byte>)
    ensures CString(s) == name <==>
      0 !in name && |name| <= |s| && s[..|name|] == name && (|name| < |s| ==> s[|name|] == 0)
  {
    if s != [] && s[0] != 0 {
      if name != [] {
        CStringEnds(s[1..], name[1..]);
        assert name == [name[0]] + name[1..];
        if |name| <= |s| {
          assert s[..|name|] == [s[0]] + s[1..][..|name| - 1];
        }
      }
    }
  }

  /** What an entry is read as. */
  lemma NamesItem(buf: nat, e: Entry, name: seq<byte>, i: nat)
    ensures Names(buf, e, name, i) <==> i < |e.data| && ItemOf(buf, e) == Some(Item(name, i, e.data[i + 1..]))
    ensures ItemOf(buf, e).Some? ==> ItemOf(buf, e).value.nameLen < |e.data|
  {
    hide CString;
    var head := Head(buf, e.data);
    var k := FirstEquals(head);
    if i < |e.data| && i < buf {
      assert head[..i] == e.data[..i];
      CStringEnds(e.data[..i], name);
      if e.data[i] == 0x3d && 0x3d !in e.data[..i] {
        FirstEqualsIs(head, i);
      }
      if |name| <= i {
        assert e.data[..i][..|name|] == e.data[..|name|];
      }
    }
    if k < |head| {
      assert head[..k] == e.data[..k];
    }
  }

  lemma ItemNames(buf: nat, e: Entry)
    requires ItemOf(buf, e).Some?
    ensures var item := ItemOf(buf, e).value;
      Names(buf, e, item.name, item.nameLen) && item.value == e.data[item.nameLen + 1..]
  {
    hide ItemOf, Names;
    var item := ItemOf(buf, e).value;
    NamesItem(buf, e, item.name, item.nameLen);
    ItemValue(buf, e);
  }

  lemma ItemValue(buf: nat, e: Entry)
    requires ItemOf(buf, e).Some?
    ensures var item := ItemOf(buf, e).value; item.nameLen < |e.data| && item.value == e.data[item.nameLen + 1..]
  {
    hide CString;
  }

  /** The value of the newest setting of a name. */
  lemma {:induction false} NewestNamedValue(buf: nat, log: seq<Entry>, name: seq<byte>, n: nat, i: nat)
    requires NewestNamed(buf, log, name, n, i)
    ensures NewestValue(Items(buf, log), name) == log[n].data[i + 1..]
  {
    hide ItemOf, Names, Items;
    var last := |log| - 1;
    assert log == log[..last] + [log[last]];
    ItemsLast(buf, log[..last], log[last]);
    var items := Items(buf, log[..last]);
    NamesItem(buf, log[last], name, i);
    if n == last {
      assert (items + [Item(name, i, log[n].data[i + 1..])])[..|items|] == items;
    } else {
      NotNamedLast(buf, log, n, name, i);
      NewestNamedValue(buf, log[..last], name, n, i);
      match ItemOf(buf, log[last])
      case Some(item) =>
        ItemNames(buf, log[last]);
        NotNamedLast(buf, log, n, name, item.nameLen);
        assert (items + [item])[..|items|] == items;
      case None =>
        assert items + [] == items;
    }
  }

  lemma NotNamedLast(buf: nat, log: seq<Entry>, n: nat, name: seq<byte>, k: nat)
    requires n + 1 < |log| && !NamedIn(buf, log[n + 1..], name)
    ensures !NamedIn(buf, log[..|log| - 1][n + 1..], name) && !Names(buf, log[|log| - 1], name, k)
  {
    hide Names;
    var rest, front := log[n + 1..], log[..|log| - 1][n + 1..];
    assert rest[|rest| - 1] == log[|log| - 1];
    forall j: nat, i: nat | j < |front| ensures !Names(buf, front[j], name, i) {
      assert rest[j] == front[j];
    }
  }

  lemma {:induction false} NotNamedValue(buf: nat, log: seq<Entry>, name: seq<byte>)
    requires !NamedIn(buf, log, name)
    ensures NewestValue(Items(buf, log), name) == []
  {
    hide ItemOf, Names, Items;
    if log == [] {
      NoItems(buf);
    } else {
      var last := |log| - 1;
      assert log == log[..last] + [log[last]] && log[0..] == log && log[..last][0..] == log[..last];
      ItemsLast(buf, log[..last], log[last]);
      var items := Items(buf, log[..last]);
      forall n: nat, i: nat | n < last ensures !Names(buf, log[..last][n], name, i) {
        assert log[..last][n] == log[n];
      }
      NotNamedValue(buf, log[..last], name);
      match ItemOf(buf, log[last])
      case Some(item) =>
        ItemNames(buf, log[last]);
        assert (items + [item])[..|items|] == items;
      case None =>
        assert items + [] == items;
    }
  }

  lemma NoItems(buf: nat)
    ensures Items(buf, []) == []
  {
  }

  /** There is one call for a name, with the value that the newest setting of this name has,
      or none if that is empty or if there is no such setting. */
  ghost predicate CalledAs(buf: nat, log: seq<Entry>, calls: seq<Call>, name: seq<byte>) {
    && (forall n: nat, i: nat :: NewestNamed(buf, log, name, n, i) ==>
          n < |log| && i < |log[n].data| &&
          CallsFor(calls, name) == if i + 1 == |log[n].data| then [] else [Call(name, log[n].data[i + 1..])])
    && (!NamedIn(buf, log, name) ==> CallsFor(calls, name) == [])
  }

  /** The calls for a name are made for the newest entry with id 0xffff that has this name,
      and for no other. */
  lemma CalledAsNamed(buf: nat, log: seq<Entry>, name: seq<byte>)
    requires name != []
    ensures CalledAs(buf, log, Calls(Items(buf, log)), name)
  {
    hide Calls, CallsFor, NewestValue, NewestNamed, NamedIn, Items;
    ItemsNamesOk(buf, log);
    LoadCallsNewest(Items(buf, log), name);
    forall n: nat, i: nat | NewestNamed(buf, log, name, n, i)
      ensures n < |log| && i < |log[n].data|
      ensures CallsFor(Calls(Items(buf, log)), name) == if i + 1 == |log[n].data| then [] else [Call(name, log[n].data[i + 1..])]
    {
      NewestNamedValue(buf, log, name, n, i);
      NamesWithin(buf, log, name, n, i);
    }
    if !NamedIn(buf, log, name) {
      NotNamedValue(buf, log, name);
    }
  }

  lemma NamesWithin(buf: nat, log: seq<Entry>, name: seq<byte>, n: nat, i: nat)
    requires NewestNamed(buf, log, name, n, i)
    ensures n < |log| && i < |log[n].data|
  {
  }

  /** The entries of the settings id. */
  ghost function OwnEntries(log: seq<Entry>): (own: seq<Entry>)
    ensures forall i :: 0 <= i < |own| ==> own[i].id == 0xffff && own[i] in log
    ensures forall i :: 0 <= i < |log| && log[i].id == 0xffff ==> log[i] in own
  {
    if log == [] then []
    else (if log[0].id == 0xffff then [log[0]] else []) + OwnEntries(log[1..])
  }

  /** Entries that other users of the store have written do not matter. */
  lemma {:induction false} OthersIgnored(buf: nat, log: seq<Entry>)
    ensures Items(buf, log) == Items(buf, OwnEntries(log))
  {
    hide Items, OwnEntries;
    if log == [] {
      OwnFirst(log);
    } else {
      OthersIgnored(buf, log[1..]);
      ItemsFirst(buf, log);
      OwnFirst(log);
      NoId(buf, log[0]);
      var own := OwnEntries(log[1..]);
      if log[0].id == 0xffff {
        ItemsFirst(buf, [log[0]] + own);
        assert ([log[0]] + own)[1..] == own;
      } else {
        assert [] + Items(buf, log[1..]) == Items(buf, log[1..]);
      }
    }
  }

  lemma OwnFirst(log: seq<Entry>)
    ensures log == [] ==> OwnEntries(log) == []
    ensures log != [] ==> OwnEntries(log) == if log[0].id == 0xffff then [log[0]] + OwnEntries(log[1..]) else OwnEntries(log[1..])
  {
  }

  lemma NoId(buf: nat, e: Entry)
    ensures e.id != 0xffff ==> ItemOf(buf, e) == None
  {
  }

  /** Wherever such an entry is in the log. */
  lemma {:induction false} OtherIgnored(buf: nat, a: seq<Entry>, e: Entry, b: seq<Entry>)
    requires e.id != 0xffff
    ensures Calls(Items(buf, a + [e] + b)) == Calls(Items(buf, a + b))
  {
    hide Calls;
    OtherSkipped(buf, a, e, b);
  }

  lemma {:induction false} OtherSkipped(buf: nat, a: seq<Entry>, e: Entry, b: seq<Entry>)
    requires e.id != 0xffff
    ensures Items(buf, a + [e] + b) == Items(buf, a + b)
  {
    hide Parse;
    if a == [] {
      assert ([] + [e] + b)[1..] == b && [] + b == b;
    } else {
      assert (a + [e] + b)[1..] == a[1..] + [e] + b && (a + b)[1..] == a[1..] + b;
      OtherSkipped(buf, a[1..], e, b);
    }
  }

  // The walk over the log

  lemma ItemsFirst(buf: nat, log: seq<Entry>)
    requires log != []
    ensures Items(buf, log) == (match ItemOf(buf, log[0]) case Some(item) => [item] case None => []) + Items(buf, log[1..])
  {
  }

  lemma {:induction false} ItemsLast(buf: nat, log: seq<Entry>, e: Entry)
    ensures Items(buf, log + [e]) == Items(buf, log) + (match ItemOf(buf, e) case Some(item) => [item] case None => [])
  {
    hide ItemOf;
    if log == [] {
      ItemsFirst(buf, [e]);
    } else {
      ItemsFirst(buf, log);
      ItemsFirst(buf, log + [e]);
      assert (log + [e])[1..] == log[1..] + [e];
      ItemsLast(buf, log[1..], e);
    }
  }

  lemma CalledWithNewest(buf: nat, log: seq<Entry>)
    ensures forall name: seq<byte> :: name != [] ==>
      CallsFor(Calls(Items(buf, log)), name) == CallIfSet(name, NewestValue(Items(buf, log), name))
  {
    hide Calls, CallsFor, NewestValue, CallIfSet;
    ItemsNamesOk(buf, log);
    forall name: seq<byte> | name != []
      ensures CallsFor(Calls(Items(buf, log)), name) == CallIfSet(name, NewestValue(Items(buf, log), name))
    {
      LoadCallsNewest(Items(buf, log), name);
    }
  }

  /** What load hands over after a save: the value just saved, or nothing for an empty one,
      and for every other name what it would have handed over before. */
  lemma SavedIsLoaded(buf: nat, log: seq<Entry>, name: seq<byte>, value: seq<byte>, other: seq<byte>)
    requires name != [] && EQUALS !in name && 0 !in name && |name| < buf
    requires other != [] && other != name
    ensures var more := log + [Entry(SETTINGS_ID, name + [EQUALS] + value)];
      && CallsFor(Calls(Items(buf, more)), name) == CallIfSet(name, value)
      && CallsFor(Calls(Items(buf, more)), other) == CallsFor(Calls(Items(buf, log)), other)
  {
    var e := Entry(SETTINGS_ID, name + [EQUALS] + value);
    var more, item := log + [e], Item(name, |name|, value);
    SavedIsParsed(buf, name, value);
    ItemsLast(buf, log, e);
    CalledWithNewest(buf, log);
    CalledWithNewest(buf, more);
    hide Items, Calls, CallsFor, CallIfSet;
    assert (Items(buf, log) + [item])[..|Items(buf, log)|] == Items(buf, log);
  }

  lemma ReplacedFirst(name: seq<byte>, items: seq<Item>)
    requires items != []
    ensures Replaced(name, items) == ((items[0].nameLen > 0 && items[0].name == name) || Replaced(name, items[1..]))
  {
    if Replaced(name, items) && !(items[0].nameLen > 0 && items[0].name == name) {
      var j :| 0 <= j < |items| && items[j].nameLen > 0 && items[j].name == name;
      assert items[1..][j - 1].name == name;
    }
    if Replaced(name, items[1..]) {
      var j :| 0 <= j < |items| - 1 && items[1..][j].nameLen > 0 && items[1..][j].name == name;
      assert items[j + 1].name == name;
    }
  }

  lemma ReplacedEntry(buf: nat, name: seq<byte>, log: seq<Entry>)
    requires log != []
    ensures Replaced(name, Items(buf, log)) ==
      ((match ItemOf(buf, log[0]) case Some(item) => item.nameLen > 0 && item.name == name case None => false)
       || Replaced(name, Items(buf, log[1..])))
  {
    hide Items, Replaced;
    ItemsFirst(buf, log);
    match ItemOf(buf, log[0])
    case Some(item) =>
      var items := Items(buf, log);
      assert items[1..] == Items(buf, log[1..]);
      ReplacedFirst(name, items);
    case None =>
      assert Items(buf, log) == Items(buf, log[1..]);
  }

  /** A later setting of the same name, whose name is not empty. */
  lemma {:induction false} ReplacedIsNamed(buf: nat, name: seq<byte>, log: seq<Entry>)
    ensures Replaced(name, Items(buf, log)) <==> exists n: nat, i: nat :: n < |log| && Names(buf, log[n], name, i) && i > 0
  {
    hide Names, ItemOf, Items, Replaced;
    if log == [] {
      NoneReplaced(buf, name);
    } else {
      ReplacedEntry(buf, name, log);
      ReplacedIsNamed(buf, name, log[1..]);
      if Replaced(name, Items(buf, log)) {
        if Replaced(name, Items(buf, log[1..])) {
          var n: nat, i: nat :| n < |log[1..]| && Names(buf, log[1..][n], name, i) && i > 0;
          assert Names(buf, log[n + 1], name, i);
        } else {
          ItemNames(buf, log[0]);
        }
      }
      if n: nat, i: nat :| n < |log| && Names(buf, log[n], name, i) && i > 0 {
        if n > 0 {
          assert Names(buf, log[1..][n - 1], name, i);
        } else {
          NamesItem(buf, log[0], name, i);
        }
      }
    }
  }

  /** The call, if any, that the first entry of `log` leads to. */
  ghost function CallOf(buf: nat, log: seq<Entry>): seq<Call>
    requires log != []
  {
    match ItemOf(buf, log[0])
    case Some(item) =>
      if item.value != [] && !Replaced(item.name, Items(buf, log[1..])) then [Call(item.name, item.value)] else []
    case None => []
  }

  lemma CallsFirst(buf: nat, log: seq<Entry>)
    requires log != []
    ensures Calls(Items(buf, log)) == CallOf(buf, log) + Calls(Items(buf, log[1..]))
  {
    hide Items, Replaced;
    ItemsFirst(buf, log);
    match ItemOf(buf, log[0])
    case Some(item) =>
      var items := Items(buf, log);
      assert items[1..] == Items(buf, log[1..]) && items[0] == item;
    case None =>
      assert Items(buf, log) == Items(buf, log[1..]);
  }

  class Settings {
    const store: Store
    /** SETTINGS_MAX_NAME_LEN + SETTINGS_EXTRA_LEN + 1 */
    const buf: nat

    constructor (store: Store, buf: nat)
      ensures this.store == store && this.buf == buf
    {
      this.store, this.buf := store, buf;
    }

    /** settings_sfcb_read_name: the position of '=', if it is within the buffer. */
    method ReadName(loc: Loc, ghost e: Entry) returns (item: Option<(nat, seq<byte>)>)
      requires store.Framed() && store.LocOk(loc) && store.AtEntry(loc, e) && loc.dataOff == 0
      modifies loc`dataOff
      ensures store.Framed() && store.LocOk(loc) && store.AtEntry(loc, e)
      ensures store.LocRest(loc) == old(store.LocRest(loc))
      ensures item.None? <==> Parse(buf, e.data).None?
      ensures item.Some? ==>
        item.value == (Parse(buf, e.data).value.nameLen, Parse(buf, e.data).value.name) && item.value.0 < |e.data|
    {
      hide store.AtEntry, store.LocRest, store.Framed, Parse, FirstEquals;
      store.EntryFacts(loc, e);
      var data := store.ReadLoc(loc, buf, e);
      HeadIs(buf, e.data, data);
      var i := 0;
      assert data[..0] == [];
      while i < |data| && data[i] != EQUALS
        invariant i <= |data| && EQUALS !in data[..i]
      {
        assert data[..i + 1] == data[..i] + [data[i]];
        i := i + 1;
      }
      NameIs(buf, e.data, data, i);
      if i == |data| {
        return None;
      }
      return Some((i, CString(data[..i])));
    }

    /** settings_sfcb_check_duplicate */
    method CheckDuplicate(loc: Loc, name: seq<byte>, ghost e: Entry) returns (duplicate: bool)
      requires store.Framed() && store.AtEntry(loc, e)
      ensures store.Framed()
      ensures duplicate == Replaced(name, Items(buf, store.LocRest(loc)))
      ensures duplicate <==> exists n: nat, i: nat :: n < |store.LocRest(loc)| && Names(buf, store.LocRest(loc)[n], name, i) && i > 0
    {
      hide store.AtEntry, store.LocOk, store.LocRest, store.Framed, Items, Replaced, Parse, Names;
      store.EntryFacts(loc, e);
      var walk := new Loc();
      walk.Assign(loc);
      store.SameRestLoc(loc, walk);
      ghost var rest := store.LocRest(loc);
      var more := store.NextLoc(walk);
      if more {
        store.EntryFacts(walk, rest[0]);
      }
      while more
        invariant store.Framed() && fresh(walk)
        invariant Replaced(name, Items(buf, old(store.LocRest(loc)))) == Replaced(name, Items(buf, rest))
        invariant more ==> rest != [] && store.AtEntry(walk, rest[0]) && walk.dataOff == 0
        invariant more ==> store.LocOk(walk) && store.LocRest(walk) == rest[1..]
        invariant !more ==> rest == []
        decreases |rest|
      {
        ReplacedEntry(buf, name, rest);
        store.EntryFacts(walk, rest[0]);
        if walk.ate.id == SETTINGS_ID {
          var item := ReadName(walk, rest[0]);
          if item.Some? && item.value.0 > 0 && item.value.1 == name {
            ReplacedIsNamed(buf, name, store.LocRest(loc));
            return true;
          }
        }
        rest := rest[1..];
        more := store.NextLoc(walk);
        if more {
          store.EntryFacts(walk, rest[0]);
        }
      }
      NoneReplaced(buf, name);
      ReplacedIsNamed(buf, name, store.LocRest(loc));
      return false;
    }

    /** The handler call, if any, for the entry at `loc`: what follows in the log decides
        whether it has been replaced. */
    method LoadEntry(loc: Loc, ghost e: Entry, ghost log: seq<Entry>) returns (calls: seq<Call>)
      requires store.Framed() && store.LocOk(loc) && store.AtEntry(loc, e) && loc.dataOff == 0
      requires log != [] && log[0] == e && store.LocRest(loc) == log[1..]
      modifies loc`dataOff
      ensures store.Framed() && store.LocOk(loc) && store.LocRest(loc) == log[1..]
      ensures calls == CallOf(buf, log)
      ensures e.id != 0xffff ==> calls == []
      ensures calls != [] ==> exists i: nat :: CallsAt(buf, e, calls, i)
    {
      hide store.AtEntry, store.LocRest, store.Framed, store.LocOk, Parse, Replaced, Items, Names;
      store.EntryFacts(loc, e);
      if loc.ate.id != SETTINGS_ID {
        return [];
      }
      var item := ReadName(loc, e);
      if item.None? {
        return [];
      }
      ValueIs(buf, e.data);
      var (nameLen, name) := item.value;
      store.EntryFacts(loc, e);
      if loc.ate.len - nameLen - 1 == 0 {
        return [];
      }
      var duplicate := CheckDuplicate(loc, name, e);
      if duplicate {
        return [];
      }
      store.EntryIsNotWriteLoc(loc, e);
      var _ := store.SetPos(loc, nameLen + 1, e);
      var value := store.ReadLoc(loc, loc.ate.len - nameLen - 1, e);
      store.EntryFacts(loc, e);
      assert e.data[nameLen + 1..|e.data|] == e.data[nameLen + 1..];
      ItemNames(buf, e);
      calls := [Call(name, value)];
      assert CallsAt(buf, e, calls, nameLen);
    }

    /** settings_sfcb_load, with a handler that does not fail; the result lists its calls. */
    method Load() returns (calls: seq<Call>)
      requires store.Framed()
      ensures calls == Calls(Items(buf, Log(store.dev.mem, store.wrSector)))
      ensures calls == Calls(Items(buf, OwnEntries(Log(store.dev.mem, store.wrSector))))
      ensures forall name: seq<byte> :: name != [] ==>
        CallsFor(calls, name) == CallIfSet(name, NewestValue(Items(buf, Log(store.dev.mem, store.wrSector)), name))
      ensures forall name: seq<byte> :: name != [] ==> CalledAs(buf, Log(store.dev.mem, store.wrSector), calls, name)
    {
      hide store.AtEntry, store.LocRest, store.Framed, store.LocOk, Parse, Replaced, Items, Calls, CallOf,
        CallsFor, CallIfSet, NewestValue, Log, CalledAs, OwnEntries;
      store.FramedBounds();
      var loc := new Loc();
      store.StartLoc(loc);
      ghost var rest := store.LocRest(loc);
      ghost var all := Calls(Items(buf, rest));
      calls := [];
      var more := store.NextLoc(loc);
      if more {
        store.EntryFacts(loc, rest[0]);
      }
      while more
        invariant store.Framed() && fresh(loc)
        invariant all == calls + Calls(Items(buf, rest))
        invariant more ==> rest != [] && store.AtEntry(loc, rest[0]) && loc.dataOff == 0
        invariant more ==> store.LocOk(loc) && store.LocRest(loc) == rest[1..]
        invariant !more ==> rest == []
        decreases |rest|
      {
        CallsFirst(buf, rest);
        var now := LoadEntry(loc, rest[0], rest);
        ThreeParts(calls, now, Calls(Items(buf, rest[1..])));
        calls := calls + now;
        rest := rest[1..];
        more := store.NextLoc(loc);
        if more {
          store.EntryFacts(loc, rest[0]);
        }
      }
      NoCalls(buf);
      assert calls + [] == calls;
      CalledWithNewest(buf, Log(store.dev.mem, store.wrSector));
      OthersIgnored(buf, Log(store.dev.mem, store.wrSector));
      forall name: seq<byte> | name != [] ensures CalledAs(buf, Log(store.dev.mem, store.wrSector), calls, name) {
        CalledAsNamed(buf, Log(store.dev.mem, store.wrSector), name);
      }
    }

    /** The three parts of an entry. */
    method SaveParts(loc: Loc, name: seq<byte>, value: seq<byte>)
      requires store.Writing(loc) && store.wrSector < |store.dev.mem| && |store.dev.mem| > 1
      requires Clean(store.dev.mem, store.wrSector) && loc.written == []
      requires loc.ate.Ate? && loc.ate.len == |name| + 1 + |value|
      modifies store.dev`mem, store.dev`trace, loc
      ensures store.Writing(loc) && store.wrSector < |store.dev.mem| && |store.dev.mem| > 1
      ensures Clean(store.dev.mem, store.wrSector)
      ensures loc.ate == old(loc.ate) && loc.start == old(loc.start) && loc.written == name + [EQUALS] + value
      ensures CrashSafe(store.dev.g, old(store.dev.trace), store.dev.trace, store.history)
    {
      hide store.Writing, Clean, CrashSafe;
      ghost var t0 := store.dev.trace;
      CrashSafeNothing(store.dev.g, t0, store.history);
      store.WritePart(loc, name, t0);
      store.OpenIsWriteLoc(loc);
      store.WritePart(loc, [EQUALS], t0);
      store.OpenIsWriteLoc(loc);
      store.WritePart(loc, value, t0);
      store.OpenIsWriteLoc(loc);
      assert [] + name == name;
    }

    /** settings_sfcb_save: one entry, written in three parts. */
    method Save(name: seq<byte>, value: seq<byte>) returns (status: Status)
      requires store.Mounted()
      requires AlignUp(store.dev.g.wbs, |name| + 1 + |value|) + REC < 0x1_0000
      modifies store`wrSector, store`wrSectorId, store`wrData, store`wrAte, store`filled, store`history, store.dev`mem, store.dev`trace
      ensures store.Mounted()
      ensures status == Ok || status == NoMemory
      ensures status == Ok ==> store.history == old(store.history) + [Entry(SETTINGS_ID, name + [EQUALS] + value)]
      ensures status == (if old(store.Takes(|name| + 1 + |value|)) then Ok else NoMemory)
      ensures status == Ok ==> store.LogEndsWith(Entry(SETTINGS_ID, name + [EQUALS] + value))
      ensures old(store.HasRoom(|name| + 1 + |value|)) ==>
        && store.wrSector == old(store.wrSector)
        && Log(store.dev.mem, store.wrSector) == Log(old(store.dev.mem), store.wrSector) + [Entry(SETTINGS_ID, name + [EQUALS] + value)]
      ensures status == Ok ==> CrashSafeCommit(store.dev.g, old(store.dev.trace), store.dev.trace, old(store.history), store.history)
      ensures status != Ok ==> store.history == old(store.history)
      ensures status != Ok ==> CrashSafe(store.dev.g, old(store.dev.trace), store.dev.trace, store.history)
    {
      hide Image, store.Framed, Recoverable, BlankRange, store.Writing, SameView, Log, Newer, Older, AlignUp, store.Takes, CrashSafe, CrashSafeCommit,
        OpenedAs, Clean, store.ClosedAs, store.LogEndsWith;
      if store.HasRoom(|name| + 1 + |value|) {
        store.RoomIsTaken(|name| + 1 + |value|);
      }
      var loc := new Loc();
      status := store.OpenLoc(loc, SETTINGS_ID, |name| + 1 + |value|);
      if status != Ok {
        return;
      }
      ghost var g, h, t0 := store.dev.g, store.history, store.dev.trace;
      store.OpenIsWriteLoc(loc);
      SaveParts(loc, name, value);
      CrashSafeTrans(g, old(store.dev.trace), t0, store.dev.trace, h);
      store.OpenIsWriteLoc(loc);
      PaddedWhole(name + [EQUALS] + value);
      status := store.CloseWritten(loc, old(store.dev.trace), Entry(SETTINGS_ID, name + [EQUALS] + value));
    }
  }

  /** A save and a load: the handler gets the value just saved, also when
      the save went to a new sector; if it did not, it gets all others as before. */
  method SaveAndLoad(settings: Settings, name: seq<byte>, value: seq<byte>) returns (status: Status, calls: seq<Call>)
    requires settings.store.Mounted()
    requires AlignUp(settings.store.dev.g.wbs, |name| + 1 + |value|) + REC < 0x1_0000
    requires name != [] && EQUALS !in name && 0 !in name && |name| < settings.buf
    modifies settings.store, settings.store.dev`mem, settings.store.dev`trace
    ensures settings.store.Mounted()
    ensures status == Ok ==> CallsFor(calls, name) == CallIfSet(name, value)
    ensures old(settings.store.HasRoom(|name| + 1 + |value|)) ==>
      forall other: seq<byte> :: other != [] && other != name ==>
        CallsFor(calls, other) == CallsFor(Calls(Items(settings.buf, old(settings.store.InFlash()))), other)
  {
    hide Image, settings.store.Framed, Recoverable, BlankRange, SameView, Log, Calls, CallsFor, CallIfSet, Items, AlignUp;
    ghost var before := settings.store.InFlash();
    status := settings.Save(name, value);
    calls := settings.Load();
    if status == Ok {
      ghost var log, e := settings.store.InFlash(), Entry(SETTINGS_ID, name + [EQUALS] + value);
      FrontAndLast(log, e);
      SavedIsLoaded(settings.buf, log[..|log| - 1], name, value, name + [0]);
      if old(settings.store.HasRoom(|name| + 1 + |value|)) {
        forall other: seq<byte> | other != [] && other != name
          ensures CallsFor(calls, other) == CallsFor(Calls(Items(settings.buf, before)), other)
        {
          SavedIsLoaded(settings.buf, before, name, value, other);
        }
      }
    }
  }

  lemma FrontAndLast(log: seq<Entry>, e: Entry)
    requires log != [] && log[|log| - 1] == e
    ensures log == log[..|log| - 1] + [e]
  {
  }

  lemma ThreeParts(a: seq<Call>, b: seq<Call>, c: seq<Call>)
    ensures a + (b + c) == a + b + c
  {
  }

  lemma NoCalls(buf: nat)
    ensures Calls(Items(buf, [])) == []
  {
  }

  lemma ValueIs(buf: nat, data: seq<byte>)
    ensures Parse(buf, data).Some? ==> var item := Parse(buf, data).value;
      item.nameLen < |data| && item.value == data[item.nameLen + 1..]
  {
    hide CString;
  }

  lemma HeadIs(buf: nat, data: seq<byte>, head: seq<byte>)
    requires |head| == (if buf > |data| then |data| else buf) && head == data[0..|head|]
    ensures head == Head(buf, data)
  {
  }

  lemma NameIs(buf: nat, data: seq<byte>, head: seq<byte>, i: nat)
    requires head == Head(buf, data) && i <= |head| && EQUALS !in head[..i]
    requires i < |head| ==> head[i] == EQUALS
    ensures Parse(buf, data).None? <==> i == |head|
    ensures i < |head| ==> i < |data| && Parse(buf, data).value.nameLen == i && Parse(buf, data).value.name == CString(head[..i])
  {
    hide CString;
    if i == |head| {
      NoEquals(head);
    } else {
      FirstEqualsIs(head, i);
      assert head[..i] == data[..i];
    }
  }

  lemma NoEquals(s: seq<byte>)
    requires EQUALS !in s[..|s|]
    ensures FirstEquals(s) == |s|
  {
    assert s[..|s|] == s;
  }

  lemma NoneReplaced(buf: nat, name: seq<byte>)
    ensures !Replaced(name, Items(buf, []))
  {
  }
}
