/**
  The message history: an ordered list of records kept in one JSON file.
  Saving appends and keeps only the newest 100 records, deleting filters
  records out by their id as text, clearing writes an empty list, and a file
  that is missing or does not parse reads as an empty history.
 */
module MessageLog {
  import opened Wrappers
  import opened Text
  import opened Extensions

  /**
    The value stored under a record's 'id' key, as JSON gives it back.
    NoId stands for Python's None: the key is missing or holds null.
   */
  datatype IdValue = NoId | TextId(text: string) | IntId(number: int) | BoolId(flag: bool)

  /**
    Python's str() of an id value. An integer prints as its decimal digits,
    with a '-' exactly when it is negative.
   */
  function IdString(v: IdValue): (s: string)
    ensures v.IntId? ==> |s| >= 1 && (s[0] == '-' <==> v.number < 0)
    ensures v.IntId? && v.number >= 0 ==> AllDigits(s)
  {
    match v
    case NoId => "None"
    case TextId(s) => s
    case IntId(n) => if n < 0 then "-" + Decimal(-n) else Decimal(n)
    case BoolId(b) => if b then "True" else "False"
  }

  /**
    One persisted record. The three kinds the relay writes carry their own
    fields; OtherRecord is any other object found in the file, of which only
    the id matters here.
   */
  datatype Record =
    | TextMessage(id: IdValue, message: string, timestamp: string, shouldAutoCopy: bool)
    | FileMessage(id: IdValue, kind: FileKind, filename: string, path: string,
                  imageData: Option<string>, timestamp: string)
    | AiResponse(id: IdValue, message: string, timestamp: string, originalText: string)
    | OtherRecord(id: IdValue)

  /** Number of records a save keeps. */
  const Capacity: nat := 100

  /**
    Reading the history: the parsed list, or the empty history when the
    file is missing or cannot be parsed (None). It never fails.
   */
  function Load(file: Option<seq<Record>>): (log: seq<Record>)
    ensures file.None? ==> log == []
    ensures file.Some? ==> log == file.value
  {
    match file
    case None => []
    case Some(records) => records
  }

  function Min(a: nat, b: nat): nat {
    if a <= b then a else b
  }

  /** Python's s[-n:] for n > 0: the last n elements, or all of s if shorter. */
  function LastN<T>(s: seq<T>, n: nat): (r: seq<T>)
    requires n > 0
    ensures |r| == Min(|s|, n)
    ensures r == s[|s| - |r|..]
  {
    if |s| <= n then s else s[|s| - n..]
  }

  /**
    The list save_message writes: the old history with m appended, cut to
    the newest 100. It is never empty, stays within the cap, ends with m and
    is a tail of the old history followed by m.
   */
  function Saved(log: seq<Record>, m: Record): (r: seq<Record>)
    ensures 1 <= |r| <= Capacity && |r| <= |log| + 1 && r[|r| - 1] == m
    ensures r == (log + [m])[|log| + 1 - |r|..]
  {
    LastN(log + [m], Capacity)
  }

  /**
    A save keeps min(|log| + 1, 100) records; below the cap nothing is lost,
    at the cap the oldest records are the ones dropped.
   */
  lemma SavedShape(log: seq<Record>, m: Record)
    ensures |Saved(log, m)| == Min(|log| + 1, Capacity)
    ensures |log| < Capacity ==> Saved(log, m) == log + [m]
    ensures |log| >= Capacity ==> Saved(log, m) == log[|log| - (Capacity - 1)..] + [m]
  {
    var s := log + [m];
    if |log| >= Capacity {
      assert s[|s| - Capacity..] == log[|log| - (Capacity - 1)..] + [m];
    }
  }

  /** Saving a record on a missing or unreadable file starts a new history. */
  lemma SaveOnUnreadableFile(m: Record)
    ensures Saved(Load(None), m) == [m]
  {
  }

  /** Cutting before an append changes nothing once the append is cut too. */
  lemma LastNAppend<T>(s: seq<T>, x: T, n: nat)
    requires n > 0
    ensures LastN(LastN(s, n) + [x], n) == LastN(s + [x], n)
  {
    var t := LastN(s, n);
    var whole := s + [x];
    assert t + [x] == whole[|s| - |t|..];
    var a := LastN(t + [x], n);
    var b := LastN(whole, n);
    assert |a| == |b|;
    assert a == whole[|s| - |t|..][|t| + 1 - |a|..];
  }

  /** The history after saving ms one after another. */
  function SaveAll(log: seq<Record>, ms: seq<Record>): seq<Record>
    decreases |ms|
  {
    if ms == [] then log else Saved(SaveAll(log, ms[..|ms| - 1]), ms[|ms| - 1])
  }

  /**
    Any run of saves keeps exactly the newest 100 of all records seen, in
    arrival order (an empty run leaves a history within the cap as it is).
   */
  lemma {:induction false} SaveAllKeepsNewest(log: seq<Record>, ms: seq<Record>)
    requires ms != [] || |log| <= Capacity
    ensures SaveAll(log, ms) == LastN(log + ms, Capacity)
    decreases |ms|
  {
    if ms == [] {
      assert log + ms == log;
    } else {
      var init := ms[..|ms| - 1];
      var x := ms[|ms| - 1];
      assert log + init + [x] == log + ms;
      if init == [] {
        assert log + init == log;
      } else {
        SaveAllKeepsNewest(log, init);
        LastNAppend(log + init, x, Capacity);
      }
    }
  }

  /** After at least 100 saves on any history, exactly the last 100 saved remain. */
  lemma SaveAllWindow(log: seq<Record>, ms: seq<Record>)
    requires |ms| >= Capacity
    ensures SaveAll(log, ms) == ms[|ms| - Capacity..]
  {
    SaveAllKeepsNewest(log, ms);
    var all := log + ms;
    assert LastN(all, Capacity) == all[|all| - Capacity..];
    assert all[|all| - Capacity..] == ms[|ms| - Capacity..];
  }

  /** Python's [x for x in s if keep(x)]. */
  function Filter<T>(s: seq<T>, keep: T -> bool): (r: seq<T>)
    ensures |r| <= |s|
    decreases |s|
  {
    if s == [] then [] else (if keep(s[0]) then [s[0]] else []) + Filter(s[1..], keep)
  }

  /** Only elements that pass the test are kept. */
  lemma {:induction false} FilterOnlyKept<T>(s: seq<T>, keep: T -> bool)
    ensures forall i :: 0 <= i < |Filter(s, keep)| ==> keep(Filter(s, keep)[i])
    decreases |s|
  {
    if s != [] {
      FilterOnlyKept(s[1..], keep);
    }
  }

  /** Filtering works piece by piece, so kept elements stay in their order. */
  lemma {:induction false} FilterAppend<T>(a: seq<T>, b: seq<T>, keep: T -> bool)
    ensures Filter(a + b, keep) == Filter(a, keep) + Filter(b, keep)
    decreases |a|
  {
    if a == [] {
      assert a + b == b;
    } else {
      var ab := a + b;
      var head := if keep(a[0]) then [a[0]] else [];
      assert ab[0] == a[0] && ab[1..] == a[1..] + b;
      assert Filter(ab, keep) == head + Filter(a[1..] + b, keep);
      assert Filter(a, keep) == head + Filter(a[1..], keep);
      FilterAppend(a[1..], b, keep);
    }
  }

  /** An element that passes is kept as often as it occurs; one that fails is gone. */
  lemma {:induction false} FilterCounts<T>(s: seq<T>, keep: T -> bool, x: T)
    ensures multiset(Filter(s, keep))[x] == if keep(x) then multiset(s)[x] else 0
    decreases |s|
  {
    if s != [] {
      assert s == [s[0]] + s[1..];
      FilterCounts(s[1..], keep, x);
    }
  }

  /** When every element passes, nothing is removed. */
  lemma {:induction false} FilterAllKept<T>(s: seq<T>, keep: T -> bool)
    requires forall i :: 0 <= i < |s| ==> keep(s[i])
    ensures Filter(s, keep) == s
    decreases |s|
  {
    if s != [] {
      FilterAllKept(s[1..], keep);
    }
  }

  /** A record matches an id when both print the same with str(); it always matches its own id. */
  predicate Matches(r: Record, k: IdValue): (m: bool)
    ensures r.id == k ==> m
  {
    IdString(r.id) == IdString(k)
  }

  /** Integer ids print differently when they differ. */
  lemma IdStringIntInjective(a: int, b: int)
    requires IdString(IntId(a)) == IdString(IntId(b))
    ensures a == b
  {
    if a < 0 {
      NegativeIdsInjective(a, b);
    } else {
      assert b >= 0;
      assert Decimal(a) == Decimal(b);
      DecimalInjective(a, b);
    }
  }

  /** A negative id prints as '-' and its magnitude, and no other id prints so. */
  lemma NegativeIdsInjective(a: int, b: int)
    requires a < 0 && IdString(IntId(a)) == IdString(IntId(b))
    ensures a == b
  {
    assert b < 0;
    var da, db := Decimal(-a), Decimal(-b);
    assert "-" + da == "-" + db;
    DropSign(da, db);
    DecimalInjective(-a, -b);
  }

  /** Two texts that are equal after a leading '-' are equal. */
  lemma DropSign(x: string, y: string)
    requires "-" + x == "-" + y
    ensures x == y
  {
    assert x == ("-" + x)[1..] && y == ("-" + y)[1..];
  }

  /** Between two integer ids, matching is plain equality. */
  lemma MatchesIntIds(r: Record, k: IdValue)
    requires r.id.IntId? && k.IntId?
    ensures Matches(r, k) <==> r.id == k
  {
    if Matches(r, k) {
      IdStringIntInjective(r.id.number, k.number);
    }
  }

  /** The test of the delete handler's comprehension: the record's id differs from k. */
  function Survives(k: IdValue): Record -> bool {
    r => !Matches(r, k)
  }

  /**
    The list the delete handler writes: every record whose id does not
    match k. It is no longer than the history and no record in it matches k.
   */
  function Without(log: seq<Record>, k: IdValue): (r: seq<Record>)
    ensures |r| <= |log|
    ensures forall i :: 0 <= i < |r| ==> !Matches(r[i], k)
  {
    FilterOnlyKept(log, Survives(k));
    Filter(log, Survives(k))
  }

  /**
    Deleting k leaves no record whose id prints as k does, keeps every other
    record exactly as often as before, and keeps their order.
   */
  lemma WithoutSpec(log: seq<Record>, k: IdValue, r: Record, more: seq<Record>)
    ensures Matches(r, k) ==> multiset(Without(log, k))[r] == 0
    ensures !Matches(r, k) ==> multiset(Without(log, k))[r] == multiset(log)[r]
    ensures Without(log + more, k) == Without(log, k) + Without(more, k)
  {
    FilterCounts(log, Survives(k), r);
    FilterAppend(log, more, Survives(k));
  }

  /** Deleting an id no record has leaves the history unchanged. */
  lemma WithoutAbsent(log: seq<Record>, k: IdValue)
    requires forall i :: 0 <= i < |log| ==> !Matches(log[i], k)
    ensures Without(log, k) == log
  {
    FilterAllKept(log, Survives(k));
  }

  /** Deleting the same id twice is the same as deleting it once. */
  lemma WithoutIdempotent(log: seq<Record>, k: IdValue)
    ensures Without(Without(log, k), k) == Without(log, k)
  {
    FilterAllKept(Without(log, k), Survives(k));
  }

  /** The history file, seen through what reading it returns. */
  class MessageStore {
    var log: seq<Record>

    /** What a save leaves is within the cap. */
    predicate Bounded()
      reads this
    {
      |log| <= Capacity
    }

    /** The store over a file as found on disk (None: missing or unreadable). */
    constructor Open(file: Option<seq<Record>>)
      ensures log == Load(file)
    {
      log := Load(file);
    }

    /** save_message: read, append, keep the newest 100, write back. */
    method Append(m: Record)
      modifies this
      ensures log == Saved(old(log), m)
      ensures Bounded() && log[|log| - 1] == m
      ensures log == (old(log) + [m])[|old(log)| + 1 - |log|..]
    {
      var messages := log;
      messages := messages + [m];
      if |messages| > Capacity {
        messages := messages[|messages| - Capacity..];
      }
      log := messages;
      SavedShape(old(log), m);
    }

    /** The delete handler: drop every record whose id prints as k does. */
    method DeleteById(k: IdValue)
      modifies this
      ensures log == Without(old(log), k)
      ensures forall i :: 0 <= i < |log| ==> !Matches(log[i], k)
      ensures (forall i :: 0 <= i < |old(log)| ==> !Matches(old(log)[i], k)) ==> log == old(log)
      ensures old(Bounded()) ==> Bounded()
    {
      var messages := log;
      messages := Without(messages, k);
      log := messages;
      if forall i :: 0 <= i < |old(log)| ==> !Matches(old(log)[i], k) {
        WithoutAbsent(old(log), k);
      }
    }

    /** The clear handler: write an empty list, whatever was there. */
    method Clear()
      modifies this
      ensures log == [] && Bounded()
    {
      log := [];
    }
  }
}
