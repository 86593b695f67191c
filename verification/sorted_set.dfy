/** A Redis sorted set of integer members (post ids) scored by integers
    (millisecond timestamps), kept as a sequence in ascending rank order.

    Redis orders a sorted set by score and breaks ties by comparing members;
    here the members are compared as numbers. A member occurs at most once;
    ZADD of an existing member moves it to its new score. */
module SortedSet {

  datatype Entry = Entry(member: int, score: int)

  /** The rank order: `a` sits strictly below `b`. */
  predicate Below(a: Entry, b: Entry) {
    a.score < b.score || (a.score == b.score && a.member < b.member)
  }

  predicate Sorted(s: seq<Entry>) {
    forall i, j :: 0 <= i < j < |s| ==> Below(s[i], s[j])
  }

  predicate DistinctMembers(s: seq<Entry>) {
    forall i, j :: 0 <= i < j < |s| ==> s[i].member != s[j].member
  }

  /** The representation invariant of a sorted set: ascending by rank, one
      entry per member. */
  predicate Valid(s: seq<Entry>) {
    Sorted(s) && DistinctMembers(s)
  }

  /** Highest rank first, as ZREVRANGE reports. */
  predicate Descending(w: seq<Entry>) {
    forall i, j :: 0 <= i < j < |w| ==> Below(w[j], w[i])
  }

  function Members(s: seq<Entry>): set<int> {
    set e | e in s :: e.member
  }

  /** The members of `w`, in order (what the Java code turns into `List<Long>`). */
  function MemberList(w: seq<Entry>): (ids: seq<int>)
    ensures |ids| == |w|
    ensures forall i :: 0 <= i < |w| ==> ids[i] == w[i].member
  {
    if w == [] then [] else [w[0].member] + MemberList(w[1..])
  }

  /** The score a member currently has. */
  function ScoreOf(s: seq<Entry>, m: int): int
    requires m in Members(s)
  {
    assert s == [s[0]] + s[1..];
    if s[0].member == m then s[0].score else ScoreOf(s[1..], m)
  }

  lemma ScoreOfEntry(s: seq<Entry>, e: Entry)
    requires DistinctMembers(s) && e in s
    ensures e.member in Members(s) && ScoreOf(s, e.member) == e.score
  {
    assert s == [s[0]] + s[1..];
    if s[0] != e {
      assert e in s[1..];
      ScoreOfEntry(s[1..], e);
    }
  }

  // ---------------------------------------------------------------------
  // ZREM and ZADD
  // ---------------------------------------------------------------------

  /** ZREM: drop the entry of member `m`, if any. */
  function Remove(s: seq<Entry>, m: int): (r: seq<Entry>)
    ensures forall e :: e in r <==> e in s && e.member != m
    ensures |r| <= |s|
  {
    if s == [] then []
    else
      assert s == [s[0]] + s[1..];
      var tail := Remove(s[1..], m);
      if s[0].member == m then tail else [s[0]] + tail
  }

  /** What ZREM keeps: the set stays valid and loses exactly member `m`. */
  lemma {:induction false} RemoveValid(s: seq<Entry>, m: int)
    requires Valid(s)
    ensures Valid(Remove(s, m))
    ensures Members(Remove(s, m)) == Members(s) - {m}
    ensures |Remove(s, m)| == if m in Members(s) then |s| - 1 else |s|
  {
    if s != [] {
      SplitValid(s);
      var t := s[1..];
      RemoveValid(t, m);
      var tail := Remove(t, m);
      if s[0].member != m {
        assert Remove(s, m) == [s[0]] + tail;
        JoinValid(s[0], tail);
      }
    }
  }

  /** A non-empty valid set is its lowest entry followed by a valid rest
      that ranks above it and holds other members. */
  lemma SplitValid(s: seq<Entry>)
    requires Valid(s) && s != []
    ensures s == [s[0]] + s[1..]
    ensures Valid(s[1..])
    ensures forall y :: y in s[1..] ==> Below(s[0], y) && y.member != s[0].member
    ensures Members(s) == {s[0].member} + Members(s[1..])
  {
    var t := s[1..];
    assert s == [s[0]] + t;
    forall y | y in t ensures Below(s[0], y) && y.member != s[0].member {
      var j :| 0 <= j < |t| && t[j] == y;
      assert s[j + 1] == y;
    }
    forall i, j | 0 <= i < j < |t| ensures Below(t[i], t[j]) && t[i].member != t[j].member {
      assert t[i] == s[i + 1] && t[j] == s[j + 1];
    }
  }

  /** The converse of SplitValid: an entry below a valid rest, with a
      member of its own, extends it to a valid set. */
  lemma JoinValid(x: Entry, t: seq<Entry>)
    requires Valid(t)
    requires forall y :: y in t ==> Below(x, y) && y.member != x.member
    ensures Valid([x] + t)
    ensures Members([x] + t) == {x.member} + Members(t)
  {
    var s := [x] + t;
    forall i, j | 0 <= i < j < |s| ensures Below(s[i], s[j]) && s[i].member != s[j].member {
      assert s[j] == t[j - 1];
      if i > 0 {
        assert s[i] == t[i - 1];
      } else {
        assert s[j] in t;
      }
    }
    assert forall y :: y in s <==> y == x || y in t;
  }

  /** Insert an entry at its rank. */
  function Insert(s: seq<Entry>, e: Entry): (r: seq<Entry>)
    ensures forall x :: x in r <==> x in s || x == e
    ensures |r| == |s| + 1
  {
    if s == [] then [e]
    else
      assert s == [s[0]] + s[1..];
      if Below(s[0], e) then [s[0]] + Insert(s[1..], e) else [e] + s
  }

  /** Inserting a fresh member keeps the set valid and adds exactly that member. */
  lemma {:induction false} InsertValid(s: seq<Entry>, e: Entry)
    requires Valid(s) && e.member !in Members(s)
    ensures Valid(Insert(s, e))
    ensures Members(Insert(s, e)) == Members(s) + {e.member}
  {
    if s == [] {
      JoinValid(e, []);
      assert [e] + [] == [e];
    } else {
      SplitValid(s);
      var t := s[1..];
      assert s[0] in s;
      if Below(s[0], e) {
        InsertValid(t, e);
        var ins := Insert(t, e);
        assert Insert(s, e) == [s[0]] + ins;
        JoinValid(s[0], ins);
      } else {
        assert Below(e, s[0]);
        assert Insert(s, e) == [e] + s;
        forall y | y in s ensures Below(e, y) && y.member != e.member {
          if y != s[0] {
            assert y in t;
          }
        }
        JoinValid(e, s);
      }
    }
  }

  /** ZADD member score: a new member is inserted, an existing one is moved
      to its new score. */
  function ZAdd(s: seq<Entry>, m: int, score: int): (r: seq<Entry>)
    requires Valid(s)
    ensures Valid(r)
    ensures forall x :: x in r <==> (x in s && x.member != m) || x == Entry(m, score)
    ensures Members(r) == Members(s) + {m}
    ensures |r| == if m in Members(s) then |s| else |s| + 1
  {
    RemoveValid(s, m);
    InsertValid(Remove(s, m), Entry(m, score));
    Insert(Remove(s, m), Entry(m, score))
  }

  // ---------------------------------------------------------------------
  // Rank ranges
  // ---------------------------------------------------------------------

  /** A normalised inclusive rank window `[lo, hi]`, or no window at all. */
  datatype Span = NoSpan | Span(lo: nat, hi: nat)

  /** How Redis reads `start`/`stop` of ZRANGE, ZREVRANGE and
      ZREMRANGEBYRANK on a set of `len` entries: negative indices count from
      the end, then the window is clipped to the set. */
  function RankSpan(len: nat, start: int, stop: int): (w: Span)
    ensures w.Span? ==> w.lo <= w.hi < len
    ensures 0 <= start <= stop && start < len ==> w == Span(start, if stop < len then stop else len - 1)
    ensures start == 0 && stop < 0 && stop + len >= 0 ==> w == Span(0, stop + len)
    ensures start == 0 && stop + len < 0 ==> w == NoSpan
    ensures len == 0 ==> w == NoSpan
  {
    var a := if start < 0 then start + len else start;
    var b := if stop < 0 then stop + len else stop;
    var a' := if a < 0 then 0 else a;
    if a' > b || a' >= len then NoSpan
    else Span(a', if b >= len then len - 1 else b)
  }

  /** ZREMRANGEBYRANK: remove the entries whose ascending rank lies in the window. */
  function RemoveRangeByRank(s: seq<Entry>, start: int, stop: int): seq<Entry>
  {
    match RankSpan(|s|, start, stop)
    case NoSpan => s
    case Span(lo, hi) => s[..lo] + s[hi + 1..]
  }

  function Reverse(s: seq<Entry>): (r: seq<Entry>)
    ensures |r| == |s|
    ensures forall i :: 0 <= i < |s| ==> r[i] == s[|s| - 1 - i]
  {
    if s == [] then [] else Reverse(s[1..]) + [s[0]]
  }

  /** ZREVRANGE: the entries whose descending rank lies in the window. */
  function RevRange(s: seq<Entry>, start: int, stop: int): seq<Entry>
  {
    var d := Reverse(s);
    match RankSpan(|d|, start, stop)
    case NoSpan => []
    case Span(lo, hi) => d[lo..hi + 1]
  }

  /** The entries of `w` whose score lies in `[min, max]`, order kept. */
  function ScoreFilter(w: seq<Entry>, min: int, max: int): (f: seq<Entry>)
    ensures forall x :: x in f <==> x in w && min <= x.score <= max
    ensures Descending(w) ==> Descending(f)
    ensures |f| <= |w|
  {
    if w == [] then []
    else
      assert w == [w[0]] + w[1..];
      var tail := ScoreFilter(w[1..], min, max);
      if min <= w[0].score <= max then
        var f := [w[0]] + tail;
        assert forall j :: 0 < j < |f| ==> f[j] in w[1..];
        f
      else tail
  }

  /** ZREVRANGEBYSCORE min max LIMIT 0 count: the in-range entries from the
      top; a negative count means no limit and a zero count means none. */
  function RevRangeByScore(s: seq<Entry>, min: int, max: int, count: int): seq<Entry>
  {
    var f := ScoreFilter(Reverse(s), min, max);
    if count < 0 || count >= |f| then f else f[..count]
  }

  // ---------------------------------------------------------------------
  // Lemmas
  // ---------------------------------------------------------------------

  lemma ReverseDescending(s: seq<Entry>)
    requires Sorted(s)
    ensures Descending(Reverse(s))
    ensures forall x :: x in Reverse(s) <==> x in s
  {
    var d := Reverse(s);
    forall x | x in s ensures x in d {
      var i :| 0 <= i < |s| && s[i] == x;
      assert d[|s| - 1 - i] == x;
    }
  }

  /** A prefix of a descending list holds its top entries: whatever the
      list holds beyond the prefix ranks below every entry of the prefix. */
  lemma PrefixIsTop(w: seq<Entry>, k: nat)
    requires Descending(w) && k <= |w|
    ensures Descending(w[..k])
    ensures forall e, i :: e in w && e !in w[..k] && 0 <= i < k ==> Below(e, w[i])
  {
    forall e, i | e in w && e !in w[..k] && 0 <= i < k ensures Below(e, w[i]) {
      var j :| 0 <= j < |w| && w[j] == e;
      assert forall t :: 0 <= t < k ==> w[..k][t] == w[t];
      assert j >= k;
    }
  }

  lemma DescendingDistinct(w: seq<Entry>)
    requires Descending(w)
    ensures DistinctEntries(w)
  {
  }

  predicate DistinctEntries(w: seq<Entry>) {
    forall i, j :: 0 <= i < j < |w| ==> w[i] != w[j]
  }

  /** Entries drawn from a set with distinct members have distinct members
      themselves, if they are distinct entries. */
  lemma SubsetDistinctMembers(s: seq<Entry>, w: seq<Entry>)
    requires DistinctMembers(s) && DistinctEntries(w)
    requires forall x :: x in w ==> x in s
    ensures DistinctMembers(w)
  {
    forall i, j | 0 <= i < j < |w| ensures w[i].member != w[j].member {
      assert w[i] in s && w[j] in s;
      var a :| 0 <= a < |s| && s[a] == w[i];
      var b :| 0 <= b < |s| && s[b] == w[j];
      assert a != b;
    }
  }

  /** A set with one entry per member has as many members as entries. */
  lemma {:induction false} MembersCard(s: seq<Entry>)
    requires DistinctMembers(s)
    ensures |Members(s)| == |s|
  {
    if s != [] {
      var tail := s[1..];
      SplitDistinct(s);
      MembersCard(tail);
    }
  }

  lemma SplitDistinct(s: seq<Entry>)
    requires DistinctMembers(s) && s != []
    ensures DistinctMembers(s[1..])
    ensures s[0].member !in Members(s[1..])
    ensures Members(s) == Members(s[1..]) + {s[0].member}
  {
    var t := s[1..];
    assert s == [s[0]] + t;
    forall i, j | 0 <= i < j < |t| ensures t[i].member != t[j].member {
      assert t[i] == s[i + 1] && t[j] == s[j + 1];
    }
    forall x | x in t ensures x.member != s[0].member {
      var k :| 0 <= k < |t| && t[k] == x;
      assert s[k + 1] == x;
    }
  }

  /** Re-adding an entry the set already holds changes nothing. */
  lemma {:induction false} ZAddPresent(s: seq<Entry>, e: Entry)
    requires Valid(s) && e in s
    ensures ZAdd(s, e.member, e.score) == s
  {
    assert s == [s[0]] + s[1..];
    if s[0] == e {
      assert e.member !in Members(s[1..]);
      RemoveAbsent(s[1..], e.member);
      assert Remove(s, e.member) == s[1..];
      if s[1..] != [] {
        assert Below(e, s[1..][0]);
      }
    } else {
      assert e in s[1..];
      ZAddPresent(s[1..], e);
      assert Below(s[0], e);
      assert Remove(s, e.member) == [s[0]] + Remove(s[1..], e.member);
      var rest := Remove(s[1..], e.member);
      assert ([s[0]] + rest)[1..] == rest;
    }
  }

  lemma {:induction false} RemoveAbsent(s: seq<Entry>, m: int)
    requires m !in Members(s)
    ensures Remove(s, m) == s
  {
    if s != [] {
      assert s == [s[0]] + s[1..];
      assert s[0] in s;
      RemoveAbsent(s[1..], m);
    }
  }

  /** Inserting an entry that ranks below everything puts it first. */
  lemma InsertBottom(s: seq<Entry>, e: Entry)
    requires forall x :: x in s ==> Below(e, x)
    ensures Insert(s, e) == [e] + s
  {
    if s != [] {
      assert s[0] in s;
    }
  }

  /** Inserting an entry that ranks above everything puts it last. */
  lemma {:induction false} InsertTop(s: seq<Entry>, e: Entry)
    requires forall x :: x in s ==> Below(x, e)
    ensures Insert(s, e) == s + [e]
  {
    if s != [] {
      assert s == [s[0]] + s[1..];
      assert s[0] in s;
      assert forall x :: x in s[1..] ==> x in s;
      InsertTop(s[1..], e);
    }
  }
}
