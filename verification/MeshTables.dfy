/** The table of packets seen: SimpleMeshTables.h. */
module MeshTables {
  import opened Bits
  import opened FiniteSets

  const MAX_PACKET_HASHES: nat := 160
  const MAX_HASH_SIZE: nat := 8

  function Zero(): seq<byte> {
    [0, 0, 0, 0, 0, 0, 0, 0]
  }

  /** The latest hashes, as many as the table holds. */
  ghost function Window(log: seq<seq<byte>>): (w: seq<seq<byte>>)
    ensures |w| <= |log|
  {
    if |log| <= MAX_PACKET_HASHES then log else log[|log| - MAX_PACKET_HASHES..]
  }

  /** Whether the table holds a hash after those in the log; an entry not yet written is zero. */
  ghost predicate InTable(log: seq<seq<byte>>, h: seq<byte>) {
    h in Window(log) || (|log| < MAX_PACKET_HASHES && h == Zero())
  }

  /** Hashes in the window are different, but for entries that were cleared. */
  ghost predicate Distinct(log: seq<seq<byte>>) {
    forall j, k :: 0 <= j < k < |log| && |log| <= j + MAX_PACKET_HASHES && log[j] == log[k] ==> log[j] == Zero()
  }

  /** What the table t holds after the hashes of the log: the latest ones, in a cycle. */
  ghost predicate Holds(t: seq<seq<byte>>, log: seq<seq<byte>>) {
    && |t| == MAX_PACKET_HASHES && Distinct(log)
    && (forall j :: 0 <= j < |log| ==> |log[j]| == MAX_HASH_SIZE)
    && (forall j :: 0 <= j < |log| && |log| <= j + MAX_PACKET_HASHES ==> t[j % MAX_PACKET_HASHES] == log[j])
    && (forall i :: |log| <= i < MAX_PACKET_HASHES ==> t[i] == Zero())
  }

  class SimpleMeshTables {
    const hashes: array<byte>
    var nextIdx: nat

    /** The hashes written so far. */
    ghost var log: seq<seq<byte>>

    ghost predicate Shape() {
      hashes.Length == MAX_PACKET_HASHES * MAX_HASH_SIZE
    }

    ghost function Entry(i: nat): seq<byte>
      requires Shape() && i < MAX_PACKET_HASHES
      reads hashes
    {
      hashes[MAX_HASH_SIZE * i..MAX_HASH_SIZE * i + MAX_HASH_SIZE]
    }

    ghost function Table(): (t: seq<seq<byte>>)
      requires Shape()
      reads hashes
      ensures |t| == MAX_PACKET_HASHES && forall i :: 0 <= i < MAX_PACKET_HASHES ==> t[i] == Entry(i)
    {
      seq(MAX_PACKET_HASHES, i requires 0 <= i < MAX_PACKET_HASHES && Shape() reads hashes => Entry(i))
    }

    ghost predicate Valid()
      reads this, hashes
    {
      Shape() && nextIdx == |log| % MAX_PACKET_HASHES && Holds(Table(), log)
    }

    constructor ()
      ensures Valid() && log == [] && fresh(hashes)
    {
      hashes := new byte[MAX_PACKET_HASHES * MAX_HASH_SIZE](_ => 0);
      nextIdx := 0;
      log := [];
    }

    /** The index of the first entry with a hash, or the number of entries if there is none. */
    method Find(hash: seq<byte>) returns (i: nat)
      requires Valid() && |hash| == MAX_HASH_SIZE
      ensures i <= MAX_PACKET_HASHES && (i < MAX_PACKET_HASHES ==> Table()[i] == hash)
      ensures forall k :: 0 <= k < i ==> Table()[k] != hash
      ensures i < MAX_PACKET_HASHES <==> InTable(log, hash)
    {
      hide Holds, InTable;
      i := 0;
      while i < MAX_PACKET_HASHES && hashes[MAX_HASH_SIZE * i..MAX_HASH_SIZE * i + MAX_HASH_SIZE] != hash
        invariant i <= MAX_PACKET_HASHES && forall k :: 0 <= k < i ==> Table()[k] != hash
      {
        i := i + 1;
      }
      Member(Table(), log, hash);
    }

    /** hasSeen: a hash that the table does not hold replaces the oldest. */
    method HasSeen(hash: seq<byte>) returns (b: bool)
      requires Valid() && |hash| == MAX_HASH_SIZE
      modifies this, hashes
      ensures Valid() && (b <==> InTable(old(log), hash))
      ensures log == if b then old(log) else old(log) + [hash]
    {
      hide Holds, InTable;
      var i := Find(hash);
      b := i < MAX_PACKET_HASHES;
      if !b {
        Appended(Table(), log, hash);
        Write(nextIdx, hash);
        log := log + [hash];
        nextIdx := (nextIdx + 1) % MAX_PACKET_HASHES;
      }
    }

    /** One entry is written over. */
    method Write(i: nat, hash: seq<byte>)
      requires Shape() && i < MAX_PACKET_HASHES && |hash| == MAX_HASH_SIZE
      modifies hashes
      ensures Table() == old(Table())[i := hash]
    {
      for b := 0 to MAX_HASH_SIZE
        invariant forall k :: 0 <= k < b ==> hashes[MAX_HASH_SIZE * i + k] == hash[k]
        invariant forall k :: 0 <= k < hashes.Length && !(MAX_HASH_SIZE * i <= k < MAX_HASH_SIZE * i + b) ==> hashes[k] == old(hashes[k])
      {
        hashes[MAX_HASH_SIZE * i + b] := hash[b];
      }
      assert Entry(i) == hash;
      forall k | 0 <= k < MAX_PACKET_HASHES && k != i
        ensures Entry(k) == old(Entry(k))
      {
        assert MAX_HASH_SIZE * k + MAX_HASH_SIZE <= MAX_HASH_SIZE * i || MAX_HASH_SIZE * i + MAX_HASH_SIZE <= MAX_HASH_SIZE * k;
      }
    }

    /** clear: the hash is forgotten, and no other one. */
    method Clear(hash: seq<byte>)
      requires Valid() && |hash| == MAX_HASH_SIZE
      modifies this, hashes
      ensures Valid() && |log| == |old(log)|
      ensures forall h :: h != Zero() ==> (InTable(log, h) <==> InTable(old(log), h) && h != hash)
    {
      hide Holds, InTable;
      var i := Find(hash);
      if i < MAX_PACKET_HASHES {
        ghost var next := Cleared(Table(), log, i);
        Write(i, Zero());
        log := next;
      }
    }
  }

  lemma Member(t: seq<seq<byte>>, log: seq<seq<byte>>, h: seq<byte>)
    requires Holds(t, log)
    ensures InTable(log, h) <==> h in t
  {
    if h in t {
      var i :| 0 <= i < |t| && t[i] == h;
      if i < |log| {
        var j := Latest(|log|, i);
        InWindow(log, j);
      }
    }
    if h in Window(log) {
      var j := WindowIndex(log, h);
      assert t[j % MAX_PACKET_HASHES] == h;
    } else if |log| < MAX_PACKET_HASHES {
      assert t[|log|] == Zero();
    }
  }

  lemma Appended(t: seq<seq<byte>>, log: seq<seq<byte>>, h: seq<byte>)
    requires Holds(t, log) && !InTable(log, h) && |h| == MAX_HASH_SIZE
    ensures Holds(t[|log| % MAX_PACKET_HASHES := h], log + [h])
  {
    var n, i := |log|, |log| % MAX_PACKET_HASHES;
    var t', log' := t[i := h], log + [h];
    forall j | 0 <= j < n + 1 && n + 1 <= j + MAX_PACKET_HASHES
      ensures t'[j % MAX_PACKET_HASHES] == log'[j]
    {
      SameEntry(j, n);
    }
    forall j, k | 0 <= j < k < n + 1 && n + 1 <= j + MAX_PACKET_HASHES && log'[j] == log'[k]
      ensures log'[j] == Zero()
    {
      InWindow(log, j);
    }
    if n < MAX_PACKET_HASHES {
      SmallMod(n);
    }
  }

  /** Positions less than a cycle apart fall on different entries. */
  lemma SameEntry(j: nat, n: nat)
    requires j <= n < j + MAX_PACKET_HASHES
    ensures j % MAX_PACKET_HASHES == n % MAX_PACKET_HASHES <==> j == n
  {
  }

  lemma SmallMod(n: nat)
    ensures n < MAX_PACKET_HASHES ==> n % MAX_PACKET_HASHES == n
  {
  }

  /** Entry i becomes zero, and with it the hash that it held. */
  lemma Cleared(t: seq<seq<byte>>, log: seq<seq<byte>>, i: nat) returns (log': seq<seq<byte>>)
    requires Holds(t, log) && i < MAX_PACKET_HASHES
    ensures Holds(t[i := Zero()], log') && |log'| == |log|
    ensures forall h :: h != Zero() ==> (InTable(log', h) <==> InTable(log, h) && h != t[i])
  {
    log' := log;
    if i < |log| {
      var j := Latest(|log|, i);
      log' := log[j := Zero()];
      ClearedHolds(t, log, i, j);
    } else {
      assert t[i := Zero()] == t;
    }
    forall h | h != Zero()
      ensures InTable(log', h) <==> InTable(log, h) && h != t[i]
    {
      Member(t, log, h);
      Member(t[i := Zero()], log', h);
      OnceIn(t, log, h, i);
    }
  }

  lemma ClearedHolds(t: seq<seq<byte>>, log: seq<seq<byte>>, i: nat, j: nat)
    requires Holds(t, log) && j < |log| <= j + MAX_PACKET_HASHES && j % MAX_PACKET_HASHES == i
    ensures Holds(t[i := Zero()], log[j := Zero()])
  {
    forall k | 0 <= k < |log| && |log| <= k + MAX_PACKET_HASHES
      ensures t[i := Zero()][k % MAX_PACKET_HASHES] == log[j := Zero()][k]
    {
      SameEntry(if j < k then j else k, if j < k then k else j);
    }
    SmallMod(j);
  }

  /** No two entries hold the same hash. */
  lemma OnceAt(t: seq<seq<byte>>, log: seq<seq<byte>>, i: nat, k: nat)
    requires Holds(t, log) && i < MAX_PACKET_HASHES && k < MAX_PACKET_HASHES && t[i] == t[k] != Zero()
    ensures i == k
  {
    var a := Latest(|log|, i);
    var b := Latest(|log|, k);
  }

  lemma OnceIn(t: seq<seq<byte>>, log: seq<seq<byte>>, h: seq<byte>, i: nat)
    requires Holds(t, log) && i < MAX_PACKET_HASHES && h != Zero()
    ensures h in t[i := Zero()] <==> h in t && h != t[i]
  {
    var t' := t[i := Zero()];
    if h in t && h != t[i] {
      var k :| 0 <= k < |t| && t[k] == h;
      assert t'[k] == h;
    }
    if h in t' {
      var k :| 0 <= k < |t'| && t'[k] == h;
      assert t[k] == h;
      if t[i] == h {
        OnceAt(t, log, i, k);
      }
    }
  }

  /** The latest position that falls on an entry. */
  lemma Latest(n: nat, i: nat) returns (j: nat)
    requires i < MAX_PACKET_HASHES && i < n
    ensures j < n <= j + MAX_PACKET_HASHES && j % MAX_PACKET_HASHES == i
  {
    var q := (n - 1 - i) / MAX_PACKET_HASHES;
    j := i + MAX_PACKET_HASHES * q;
  }

  lemma InWindow(log: seq<seq<byte>>, j: nat)
    requires j < |log| <= j + MAX_PACKET_HASHES
    ensures log[j] in Window(log)
  {
    var w := Window(log);
    assert w[j - (|log| - |w|)] == log[j];
  }

  lemma WindowIndex(log: seq<seq<byte>>, h: seq<byte>) returns (j: nat)
    requires h in Window(log)
    ensures j < |log| <= j + MAX_PACKET_HASHES && log[j] == h
  {
    var k :| 0 <= k < |Window(log)| && Window(log)[k] == h;
    j := k + (|log| - |Window(log)|);
  }

  // -------------------------------------------------------------------------
  // Against the set of all hashes
  // -------------------------------------------------------------------------

  ghost function Elements(hs: seq<seq<byte>>): set<seq<byte>> {
    set h | h in hs
  }

  /** What is written when the table is shown some hashes. */
  ghost function Shown(hs: seq<seq<byte>>): seq<seq<byte>> {
    if |hs| == 0 then [] else
    var log, h := Shown(hs[..|hs| - 1]), hs[|hs| - 1];
    if InTable(log, h) then log else log + [h]
  }

  /** The table's answer differs from that of an exact set for a forgotten hash: one written only 160 or more hashes ago. */
  ghost predicate Forgotten(log: seq<seq<byte>>, h: seq<byte>) {
    h in log && forall j :: 0 <= j < |log| && log[j] == h ==> j + MAX_PACKET_HASHES < |log|
  }

  lemma ExactUnlessForgotten(log: seq<seq<byte>>, h: seq<byte>)
    requires h != Zero()
    ensures (InTable(log, h) <==> h in log) <==> !Forgotten(log, h)
  {
    if h in Window(log) {
      var j := WindowIndex(log, h);
      assert h in log;
    } else {
      forall j | 0 <= j < |log| && log[j] == h
        ensures j + MAX_PACKET_HASHES < |log|
      {
        if |log| <= j + MAX_PACKET_HASHES {
          InWindow(log, j);
        }
      }
    }
  }

  /** Shown no more than 160 different hashes, none of them zero, the table is the exact set of them. */
  lemma {:induction false} ExactUpToItsSize(hs: seq<seq<byte>>)
    requires |Elements(hs)| <= MAX_PACKET_HASHES && Zero() !in hs
    ensures Elements(Shown(hs)) == Elements(hs) && |Shown(hs)| == |Elements(hs)|
    ensures forall h :: h != Zero() ==> (InTable(Shown(hs), h) <==> h in hs)
  {
    if |hs| != 0 {
      var rest, last := hs[..|hs| - 1], hs[|hs| - 1];
      assert hs == rest + [last];
      assert Elements(hs) == Elements(rest) + {last};
      SubsetSize(Elements(rest), Elements(hs));
      ExactUpToItsSize(rest);
      assert InTable(Shown(rest), last) <==> last in rest;
      assert Elements(Shown(rest) + [last]) == Elements(Shown(rest)) + {last};
    }
    assert forall h :: h in Elements(Shown(hs)) <==> h in Elements(hs);
  }

  ghost predicate Different(hs: seq<seq<byte>>) {
    Zero() !in hs && forall j, k :: 0 <= j < k < |hs| ==> hs[j] != hs[k]
  }

  /** One more different hash, and the first is forgotten. */
  lemma ForgetsTheOldest(hs: seq<seq<byte>>)
    requires |hs| == MAX_PACKET_HASHES + 1 && Different(hs)
    ensures Shown(hs) == hs && !InTable(Shown(hs), hs[0])
  {
    ShownAll(hs, |hs|);
    assert hs[..|hs|] == hs;
    hide Shown;
    if hs[0] in Window(hs) {
      var j := WindowIndex(hs, hs[0]);
    }
  }

  lemma {:induction false} ShownAll(hs: seq<seq<byte>>, n: nat)
    requires n <= |hs| && Different(hs)
    ensures Shown(hs[..n]) == hs[..n]
  {
    if n > 0 {
      hide Different, InTable;
      ShownAll(hs, n - 1);
      NotYet(hs, n - 1);
      assert hs[..n][..n - 1] == hs[..n - 1] && hs[..n] == hs[..n - 1] + [hs[n - 1]];
    }
  }

  lemma NotYet(hs: seq<seq<byte>>, n: nat)
    requires n < |hs| && Different(hs)
    ensures !InTable(hs[..n], hs[n])
  {
    if hs[n] in Window(hs[..n]) {
      var j := WindowIndex(hs[..n], hs[n]);
    }
  }
}
