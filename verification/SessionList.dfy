/** The list of sessions as it is updated, and the walk over its rows (sessionlist.cpp). */
module SessionList {
  import opened Options
  import opened OrderedMap
  import opened SessionModel

  /** The rows from one cursor over the sessions and one over the entries of a session on. */
  ghost function RowsFromCursors(sessions: seq<Node<Session>>, sit: nat, eit: nat): seq<Row>
    requires sit <= |sessions| && (sit < |sessions| ==> eit <= |sessions[sit].value.entries|)
  {
    if sit == |sessions| then []
    else
      var s := sessions[sit].value;
      (if s.entries == [] then [Row(s.info, Idle)] else EntryRows(s.info, s.entries[eit..]))
      + Rows(sessions[sit + 1..])
  }

  /** Behind the last entry of a session comes the first of the next one. */
  lemma CursorsStep(sessions: seq<Node<Session>>, sit: nat, eit: nat)
    requires sit < |sessions|
    requires var entries := sessions[sit].value.entries; if entries == [] then eit == 0 else eit < |entries|
    ensures var rows := RowsFromCursors(sessions, sit, eit);
            && rows != []
            && rows[1..] == if eit + 1 < |sessions[sit].value.entries| then RowsFromCursors(sessions, sit, eit + 1)
                            else RowsFromCursors(sessions, sit + 1, 0)
  {
    hide Rows, EntryRows;
    RowsFromStart(sessions, sit + 1);
    var s, rest := sessions[sit].value, Rows(sessions[sit + 1..]);
    if s.entries == [] {
      TailOf(Row(s.info, Idle), [], rest);
      assert [Row(s.info, Idle)] + [] == [Row(s.info, Idle)] && [] + rest == rest;
    } else {
      EntryRowsStep(s.info, s.entries, eit);
      TailOf(Row(s.info, s.entries[eit].value), EntryRows(s.info, s.entries[eit + 1..]), rest);
      if eit + 1 == |s.entries| {
        NoEntryRows(s.info);
        assert s.entries[eit + 1..] == [] && [] + rest == rest;
      }
    }
  }

  lemma TailOf(x: Row, a: seq<Row>, b: seq<Row>)
    ensures ([x] + a + b)[1..] == a + b
  {
    assert [x] + a + b == [x] + (a + b);
  }

  lemma NoMoreRows(sessions: seq<Node<Session>>, eit: nat)
    ensures RowsFromCursors(sessions, |sessions|, eit) == []
  {
  }

  lemma EntryRowsStep(info: Info, entries: seq<Node<Entry>>, eit: nat)
    requires eit < |entries|
    ensures EntryRows(info, entries[eit..]) == [Row(info, entries[eit].value)] + EntryRows(info, entries[eit + 1..])
  {
    assert entries[eit..][1..] == entries[eit + 1..];
  }

  lemma NoEntryRows(info: Info)
    ensures EntryRows(info, []) == []
  {
  }

  lemma RowsFromStart(sessions: seq<Node<Session>>, sit: nat)
    requires sit <= |sessions|
    ensures RowsFromCursors(sessions, sit, 0) == Rows(sessions[sit..])
  {
    hide EntryRows;
    if sit < |sessions| {
      assert sessions[sit..][1..] == sessions[sit + 1..];
      var s := sessions[sit].value;
      assert s.entries[0..] == s.entries;
    }
  }

  /** Goes over the rows with one cursor over the sessions and one over the entries of a session
      (`entries_view::iterator`). */
  class RowIterator {
    const sessions: seq<Node<Session>>
    var sit: nat
    var eit: nat

    ghost predicate Valid()
      reads this
    {
      && sit <= |sessions|
      && (sit < |sessions| ==>
            var entries := sessions[sit].value.entries;
            if entries == [] then eit == 0 else eit < |entries|)
    }

    /** The rows that are still to come. */
    ghost function Left(): seq<Row>
      reads this
      requires Valid()
    {
      RowsFromCursors(sessions, sit, eit)
    }

    constructor (sessions: seq<Node<Session>>)
      ensures Valid() && fresh(this) && this.sessions == sessions
      ensures Left() == Rows(sessions)
    {
      this.sessions, sit, eit := sessions, 0, 0;
      RowsFromStart(sessions, 0);
      assert sessions[0..] == sessions;
    }

    predicate AtEnd()
      reads this
    {
      sit == |sessions|
    }

    lemma EndIsEnd()
      requires Valid()
      ensures AtEnd() <==> Left() == []
    {
    }

    method Current() returns (r: Row)
      requires Valid() && !AtEnd()
      ensures Left() != [] && r == Left()[0]
    {
      var s := sessions[sit].value;
      r := Row(s.info, if s.entries == [] then Idle else s.entries[eit].value);
    }

    method Advance()
      requires Valid() && !AtEnd()
      modifies this
      ensures Valid()
      ensures old(Left()) != [] && Left() == old(Left())[1..]
    {
      hide RowsFromCursors;
      CursorsStep(sessions, sit, eit);
      NoMoreRows(sessions, 0);
      NoMoreRows(sessions, eit + 1);
      var s := sessions[sit].value;
      if eit != |s.entries| {
        eit := eit + 1;
      }
      if eit == |s.entries| {
        sit := sit + 1;
        if sit != |sessions| {
          eit := 0;
        }
      }
    }
  }

  class List {
    var sessions: seq<Node<Session>>
    /** `num_list_entries_` */
    var count: nat
    var cache: seq<Row>
    var cacheFrom: int
    var cacheTo: int

    ghost predicate Valid()
      reads this
    {
      count < 0x1_0000_0000_0000_0000
    }

    ghost function Abstract(): State
      reads this
    {
      State(sessions, count)
    }

    constructor ()
      ensures Valid() && Abstract() == Run([]) && cache == [] && cacheFrom == cacheTo == 0
    {
      sessions, count, cache, cacheFrom, cacheTo := [], 0, [], 0, 0;
    }

    method Add(id: nat, host: string) returns (added: bool)
      requires Valid()
      modifies this`sessions, this`count
      ensures Valid() && Abstract() == Do(old(Abstract()), Op.Add(id, host))
      ensures added <==> !old(Has(sessions, id))
    {
      if Has(sessions, id) {
        return false;
      }
      sessions := Insert(sessions, id, Session(Info(id, host, ""), []));
      count := Wrap(count + 1);
      added := true;
    }

    method Remove(id: nat) returns (removed: bool)
      requires Valid()
      modifies this`sessions, this`count
      ensures Valid() && Abstract() == Do(old(Abstract()), Op.Remove(id))
      ensures removed <==> old(Has(sessions, id))
    {
      if !Has(sessions, id) {
        return false;
      }
      var size := |sessions[Position(sessions, id)].value.entries|;
      count := Wrap(count - if size > 1 then size else 1);
      sessions := Erase(sessions, id);
      removed := true;
    }

    method Clear()
      requires Valid()
      modifies this`sessions, this`count
      ensures Valid() && Abstract() == Do(old(Abstract()), Op.Clear)
    {
      count, sessions := 0, [];
    }

    /** `missing` stands for the event that tells that there is no such session. */
    method SetUserName(id: nat, name: string) returns (missing: bool)
      requires Valid()
      modifies this`sessions, this`count
      ensures Valid() && Abstract() == Do(old(Abstract()), Op.SetUserName(id, name))
      ensures missing <==> !old(Has(sessions, id))
    {
      if !Has(sessions, id) {
        return true;
      }
      var s := sessions[Position(sessions, id)].value;
      sessions := Update(sessions, id, s.(info := s.info.(userName := name)));
      missing := false;
    }

    method EntryOpen(id: nat, entry: nat, path: string, size: int) returns (missing: bool)
      requires Valid()
      modifies this`sessions, this`count
      ensures Valid() && Abstract() == Do(old(Abstract()), Op.EntryOpen(id, entry, path, size))
      ensures missing <==> !old(Has(sessions, id))
    {
      if !Has(sessions, id) {
        return true;
      }
      missing := false;
      var s := sessions[Position(sessions, id)].value;
      if Has(s.entries, entry) {
        KeepSession(id, s);
        return;
      }
      s := s.(entries := Insert(s.entries, entry, Entry(path, size, 0, 0)));
      sessions := Update(sessions, id, s);
      if |s.entries| > 1 {
        count := Wrap(count + 1);
      }
    }

    method EntryClose(id: nat, entry: nat)
      requires Valid()
      modifies this`sessions, this`count
      ensures Valid() && Abstract() == Do(old(Abstract()), Op.EntryClose(id, entry))
    {
      hide Position;
      if !Has(sessions, id) {
        return;
      }
      var s := sessions[Position(sessions, id)].value;
      if !Has(s.entries, entry) {
        KeepSession(id, s);
        return;
      }
      s := s.(entries := Erase(s.entries, entry));
      sessions := Update(sessions, id, s);
      if |s.entries| > 0 {
        count := Wrap(count - 1);
      }
    }

    method SetEntryWritten(id: nat, entry: nat, amount: int, size: int) returns (missing: bool)
      requires Valid()
      modifies this`sessions, this`count
      ensures Valid() && Abstract() == Do(old(Abstract()), Op.SetEntryWritten(id, entry, amount, size))
      ensures missing <==> !old(Has(sessions, id))
    {
      if !Has(sessions, id) {
        return true;
      }
      missing := false;
      var s := sessions[Position(sessions, id)].value;
      var e := Idle;
      if Has(s.entries, entry) {
        e := s.entries[Position(s.entries, entry)].value;
      }
      e := e.(written := amount, size := size);
      s := s.(entries := if Has(s.entries, entry) then Update(s.entries, entry, e) else Insert(s.entries, entry, e));
      sessions := Update(sessions, id, s);
    }

    method SetEntryRead(id: nat, entry: nat, amount: int) returns (missing: bool)
      requires Valid()
      modifies this`sessions, this`count
      ensures Valid() && Abstract() == Do(old(Abstract()), Op.SetEntryRead(id, entry, amount))
      ensures missing <==> !old(Has(sessions, id))
    {
      if !Has(sessions, id) {
        return true;
      }
      missing := false;
      var s := sessions[Position(sessions, id)].value;
      var e := Idle;
      if Has(s.entries, entry) {
        e := s.entries[Position(s.entries, entry)].value;
      }
      e := e.(read := amount);
      s := s.(entries := if Has(s.entries, entry) then Update(s.entries, entry, e) else Insert(s.entries, entry, e));
      sessions := Update(sessions, id, s);
    }

    /** Writing back what is there changes nothing. */
    lemma KeepSession(id: nat, s: Session)
      requires Has(sessions, id) && sessions[Position(sessions, id)].value == s
      ensures Update(sessions, id, s) == sessions
    {
    }

    /** Prepares the rows `from` to `to` for being shown. The first of them is checked against
        the number of sessions, which is at most that of the rows: rows behind it are not
        prepared unless an earlier one is asked for with them. */
    method CacheHint(from: int, to: int)
      modifies this`cache, this`cacheFrom, this`cacheTo
      ensures from < 0 || from >= |sessions| || to < from ==>
                cacheFrom == -1 && cacheTo == -1 && cache == old(cache)
      ensures 0 <= from < |sessions| && from <= to ==>
                && from < |Rows(sessions)| && cacheFrom == from
                && cache == Rows(sessions)[from..if to < |Rows(sessions)| then to + 1 else |Rows(sessions)|]
                && cacheTo == from + |cache| - 1
    {
      cacheFrom, cacheTo := from, to;
      if from < 0 || from >= |sessions| {
        cacheFrom, cacheTo := -1, -1;
        return;
      }
      var amount := to - from + 1;
      if amount <= 0 {
        cacheFrom, cacheTo := -1, -1;
        return;
      }
      NoMoreSessionsThanRows(sessions);
      cache, amount := RowsFrom(sessions, from, amount);
      cacheTo := cacheTo - amount;
    }
  }

  /** Up to `n` rows from `from` on; `wanting` more were asked for. */
  method RowsFrom(sessions: seq<Node<Session>>, from: nat, n: nat) returns (rows: seq<Row>, wanting: nat)
    requires from < |Rows(sessions)| && n > 0
    ensures var end := if from + n < |Rows(sessions)| then from + n else |Rows(sessions)|;
            && rows == Rows(sessions)[from..end]
            && |rows| + wanting == n
  {
    hide Rows, RowIterator.Left, RowIterator.AtEnd;
    var it := new RowIterator(sessions);
    Skip(it, from);
    rows, wanting := Take(it, n);
  }

  /** `std::next` */
  method Skip(it: RowIterator, n: nat)
    requires it.Valid() && n <= |it.Left()|
    modifies it
    ensures it.Valid() && it.Left() == old(it.Left())[n..]
  {
    var skipped := 0;
    while skipped < n
      invariant 0 <= skipped <= n && it.Valid()
      invariant it.Left() == old(it.Left())[skipped..]
    {
      it.EndIsEnd();
      it.Advance();
      skipped := skipped + 1;
    }
  }

  /** Collects up to `n` rows; `wanting` more were asked for. */
  method Take(it: RowIterator, n: nat) returns (rows: seq<Row>, wanting: nat)
    requires it.Valid()
    modifies it
    ensures it.Valid()
    ensures var all := old(it.Left());
            && rows == all[..if n < |all| then n else |all|]
            && wanting == n - |rows|
  {
    hide RowIterator.Left, RowIterator.AtEnd;
    ghost var all := it.Left();
    rows, wanting := [], n;
    it.EndIsEnd();
    while wanting > 0 && !it.AtEnd()
      invariant it.Valid() && wanting + |rows| == n && |rows| <= |all|
      invariant rows == all[..|rows|] && it.Left() == all[|rows|..]
      invariant it.AtEnd() <==> it.Left() == []
      decreases wanting
    {
      var row := it.Current();
      rows := rows + [row];
      it.Advance();
      wanting := wanting - 1;
      it.EndIsEnd();
    }
  }
}
