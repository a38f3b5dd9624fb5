/**
 * The table-driven `Initiator` of the snooping example.  It keeps every DMI
 * grant it has been given in `dmiTable`, consults the table before each
 * access (first match in insertion order wins), writes or reads the granted
 * memory directly on a hit, appends a fresh grant after a miss, and prunes the
 * table when an invalidation arrives.
 */
module TableClient {
  import opened Tlm

  /** The lookup test: the entry's range contains the address and it allows the command. */
  predicate Matches(e: Dmi, addr: u64, cmd: Command)
  {
    && e.startAddress <= addr <= e.endAddress
    && ((cmd == WriteCommand && IsWriteAllowed(e.access)) ||
        (cmd == ReadCommand && IsReadAllowed(e.access)))
  }

  /** The reference lookup: the index of the first matching entry, if any. */
  function FirstMatch(table: seq<Dmi>, addr: u64, cmd: Command): (r: Option<nat>)
    ensures r.Some? ==> r.value < |table| && Matches(table[r.value], addr, cmd)
    ensures r.Some? ==> forall j :: 0 <= j < r.value ==> !Matches(table[j], addr, cmd)
    ensures r.None? <==> forall j :: 0 <= j < |table| ==> !Matches(table[j], addr, cmd)
  {
    if table == [] then None
    else if Matches(table[0], addr, cmd) then Some(0)
    else
      match FirstMatch(table[1..], addr, cmd)
      case None => None
      case Some(k) => Some(k + 1)
  }

  /** The latency a hit charges: the entry's write latency for a write, its read latency otherwise. */
  function HitLatency(e: Dmi, cmd: Command): nat
  {
    if cmd == WriteCommand then e.writeLatency else e.readLatency
  }

  /**
   * A grant the initiator can dereference anywhere in its range: a pointer
   * into an array, a word-aligned start, and enough words behind the pointer
   * for the whole range.
   */
  predicate Usable(e: Dmi)
  {
    && e.ptr.WordPtr?
    && e.startAddress % 4 == 0
    && e.startAddress <= e.endAddress
    && e.ptr.word + (e.endAddress - e.startAddress) / 4 < e.ptr.block.Length
  }

  /** The word of the granted array that byte address `addr` falls in. */
  function WordIndex(e: Dmi, addr: u64): nat
    requires e.ptr.WordPtr? && e.startAddress <= addr
  {
    e.ptr.word + (addr - e.startAddress) / 4
  }

  lemma {:induction false} WordIndexInBounds(e: Dmi, addr: u64)
    requires Usable(e) && e.startAddress <= addr <= e.endAddress
    ensures WordIndex(e, addr) < e.ptr.block.Length
  {
    var a, b := addr - e.startAddress, e.endAddress - e.startAddress;
    assert 4 * (a / 4) <= a <= b < 4 * (b / 4) + 4;
  }

  // ---------------------------------------------------------------------------
  // The invalidation handler.

  /** The relevance test of the handler: the entry's range meets [startRange, endRange]. */
  predicate Hit(e: Dmi, startRange: u64, endRange: u64)
  {
    Overlaps(startRange, endRange, e.startAddress, e.endAddress)
  }

  /**
   * The table as the source's erase loop leaves it: after erasing entry i it
   * still advances i, so the entry that slid into position i is never tested.
   */
  function PruneAsWritten(table: seq<Dmi>, startRange: u64, endRange: u64): seq<Dmi>
    decreases |table|
  {
    if table == [] then []
    else if Hit(table[0], startRange, endRange) then
      if |table| == 1 then [] else [table[1]] + PruneAsWritten(table[2..], startRange, endRange)
    else
      [table[0]] + PruneAsWritten(table[1..], startRange, endRange)
  }

  /** The intended prune: every entry that overlaps removed, the rest kept in order. */
  function Prune(table: seq<Dmi>, startRange: u64, endRange: u64): seq<Dmi>
  {
    if table == [] then []
    else if Hit(table[0], startRange, endRange) then Prune(table[1..], startRange, endRange)
    else [table[0]] + Prune(table[1..], startRange, endRange)
  }

  /** Everything the intended prune keeps comes from the table and does not overlap. */
  lemma {:induction false} PruneKeepsOnlyDisjoint(table: seq<Dmi>, startRange: u64, endRange: u64, e: Dmi)
    requires e in Prune(table, startRange, endRange)
    ensures e in table && !Hit(e, startRange, endRange)
    decreases |table|
  {
    assert table == [table[0]] + table[1..];
    if e != table[0] || Hit(table[0], startRange, endRange) {
      PruneKeepsOnlyDisjoint(table[1..], startRange, endRange, e);
    }
  }

  /** Every entry that does not overlap survives the intended prune. */
  lemma {:induction false} PruneKeepsAllDisjoint(table: seq<Dmi>, startRange: u64, endRange: u64)
    ensures var r := Prune(table, startRange, endRange);
      forall i :: 0 <= i < |table| && !Hit(table[i], startRange, endRange) ==> table[i] in r
    decreases |table|
  {
    if table != [] {
      var tail := Prune(table[1..], startRange, endRange);
      PruneKeepsAllDisjoint(table[1..], startRange, endRange);
      var r := Prune(table, startRange, endRange);
      forall i | 0 <= i < |table| && !Hit(table[i], startRange, endRange)
        ensures table[i] in r
      {
        if i > 0 {
          assert table[i] == table[1..][i - 1];
          assert table[i] in tail;
        }
      }
    }
  }

  /** The intended prune invents no entry and duplicates none. */
  lemma {:induction false} PruneShrinks(table: seq<Dmi>, startRange: u64, endRange: u64)
    ensures multiset(Prune(table, startRange, endRange)) <= multiset(table)
    decreases |table|
  {
    if table != [] {
      PruneShrinks(table[1..], startRange, endRange);
      assert table == [table[0]] + table[1..];
    }
  }

  /** `a` is `b` with some entries left out: what remains keeps its relative order. */
  predicate SubSeq(a: seq<Dmi>, b: seq<Dmi>)
    decreases |b|
  {
    if b == [] then a == []
    else (a != [] && a[0] == b[0] && SubSeq(a[1..], b[1..])) || SubSeq(a, b[1..])
  }

  /** The intended prune keeps the surviving entries in their original order. */
  lemma {:induction false} PruneKeepsOrder(table: seq<Dmi>, startRange: u64, endRange: u64)
    ensures SubSeq(Prune(table, startRange, endRange), table)
    decreases |table|
  {
    if table != [] {
      PruneKeepsOrder(table[1..], startRange, endRange);
      if !Hit(table[0], startRange, endRange) {
        var r := Prune(table, startRange, endRange);
        assert r[0] == table[0] && r[1..] == Prune(table[1..], startRange, endRange);
      }
    }
  }

  /** The intended prune drops every copy of an overlapping entry and keeps every copy of any other. */
  lemma {:induction false} PruneCounts(table: seq<Dmi>, startRange: u64, endRange: u64, e: Dmi)
    ensures multiset(Prune(table, startRange, endRange))[e]
            == if Hit(e, startRange, endRange) then 0 else multiset(table)[e]
    decreases |table|
  {
    if table != [] {
      PruneCounts(table[1..], startRange, endRange, e);
      assert table == [table[0]] + table[1..];
    }
  }

  /** The source's loop, too, keeps what survives in its original order. */
  lemma {:induction false} PruneAsWrittenKeepsOrder(table: seq<Dmi>, startRange: u64, endRange: u64)
    ensures SubSeq(PruneAsWritten(table, startRange, endRange), table)
    decreases |table|
  {
    if table == [] {
    } else if Hit(table[0], startRange, endRange) {
      if |table| == 1 {
        assert table[1..] == [];
      } else {
        PruneAsWrittenKeepsOrder(table[2..], startRange, endRange);
        var r := PruneAsWritten(table, startRange, endRange);
        var u := table[1..];
        assert u[0] == table[1] && u[1..] == table[2..];
        assert r[0] == u[0] && r[1..] == PruneAsWritten(u[1..], startRange, endRange);
        assert SubSeq(r, u);
      }
    } else {
      PruneAsWrittenKeepsOrder(table[1..], startRange, endRange);
      var r := PruneAsWritten(table, startRange, endRange);
      assert r[0] == table[0] && r[1..] == PruneAsWritten(table[1..], startRange, endRange);
    }
  }

  /** What the source's loop keeps comes from the table: it invents no entry and duplicates none. */
  lemma {:induction false} PruneAsWrittenShrinks(table: seq<Dmi>, startRange: u64, endRange: u64)
    ensures multiset(PruneAsWritten(table, startRange, endRange)) <= multiset(table)
    decreases |table|
  {
    if table == [] {
    } else if Hit(table[0], startRange, endRange) {
      assert table == [table[0]] + table[1..];
      if |table| > 1 {
        PruneAsWrittenShrinks(table[2..], startRange, endRange);
        assert table[1..] == [table[1]] + table[2..];
      }
    } else {
      assert table == [table[0]] + table[1..];
      PruneAsWrittenShrinks(table[1..], startRange, endRange);
    }
  }

  /**
   * What the source's loop keeps differs from the intended prune only by
   * overlapping entries: filtering it once more gives exactly the intended
   * result, so every disjoint entry survives, in order, and everything it
   * removes overlaps.
   */
  lemma {:induction false} PruneAsWrittenKeepsDisjoint(table: seq<Dmi>, startRange: u64, endRange: u64)
    ensures Prune(PruneAsWritten(table, startRange, endRange), startRange, endRange)
            == Prune(table, startRange, endRange)
    decreases |table|
  {
    var p := PruneAsWritten(table, startRange, endRange);
    if table == [] {
    } else if Hit(table[0], startRange, endRange) {
      if |table| > 1 {
        PruneAsWrittenKeepsDisjoint(table[2..], startRange, endRange);
        assert table[1..][1..] == table[2..];
        assert p[1..] == PruneAsWritten(table[2..], startRange, endRange);
      }
    } else {
      PruneAsWrittenKeepsDisjoint(table[1..], startRange, endRange);
      assert p[1..] == PruneAsWritten(table[1..], startRange, endRange);
    }
  }

  /** Every entry the source's loop removes overlaps the invalidated range. */
  lemma {:induction false} PruneAsWrittenRemovesOnlyOverlapping(table: seq<Dmi>, startRange: u64, endRange: u64, e: Dmi)
    requires !Hit(e, startRange, endRange)
    ensures multiset(PruneAsWritten(table, startRange, endRange))[e] == multiset(table)[e]
    decreases |table|
  {
    if table == [] {
    } else if Hit(table[0], startRange, endRange) {
      assert table == [table[0]] + table[1..];
      if |table| > 1 {
        PruneAsWrittenRemovesOnlyOverlapping(table[2..], startRange, endRange, e);
        assert table[1..] == [table[1]] + table[2..];
      }
    } else {
      assert table == [table[0]] + table[1..];
      PruneAsWrittenRemovesOnlyOverlapping(table[1..], startRange, endRange, e);
    }
  }

  /**
   * The defect: two overlapping entries in a row.  The loop erases the first
   * and steps over the second, which survives although it overlaps.
   */
  lemma PruneAsWrittenSkipsSuccessor(a: Dmi, b: Dmi, rest: seq<Dmi>, startRange: u64, endRange: u64)
    requires Hit(a, startRange, endRange) && Hit(b, startRange, endRange)
    ensures var p := PruneAsWritten([a, b] + rest, startRange, endRange);
      p != [] && p[0] == b && Hit(p[0], startRange, endRange)
  {
    assert ([a, b] + rest)[2..] == rest;
  }

  /** Where no overlapping entry follows another, the source's loop does prune correctly. */
  lemma {:induction false} PruneAsWrittenCorrectWithoutRuns(table: seq<Dmi>, startRange: u64, endRange: u64)
    requires forall i :: 0 <= i < |table| - 1 && Hit(table[i], startRange, endRange) ==>
               !Hit(table[i + 1], startRange, endRange)
    ensures PruneAsWritten(table, startRange, endRange) == Prune(table, startRange, endRange)
    decreases |table|
  {
    if table == [] {
    } else if Hit(table[0], startRange, endRange) {
      if |table| > 1 {
        assert !Hit(table[1], startRange, endRange);
        var u := table[2..];
        assert forall i :: 0 <= i < |u| - 1 && Hit(u[i], startRange, endRange) ==> !Hit(u[i + 1], startRange, endRange) by {
          assert forall i :: 0 <= i < |u| ==> u[i] == table[i + 2];
        }
        PruneAsWrittenCorrectWithoutRuns(table[2..], startRange, endRange);
        assert table[1..][1..] == table[2..];
        assert Prune(table[1..], startRange, endRange) == [table[1]] + Prune(table[2..], startRange, endRange);
      }
    } else {
      var u := table[1..];
      assert forall i :: 0 <= i < |u| - 1 && Hit(u[i], startRange, endRange) ==> !Hit(u[i + 1], startRange, endRange) by {
        assert forall i :: 0 <= i < |u| ==> u[i] == table[i + 1];
      }
      PruneAsWrittenCorrectWithoutRuns(table[1..], startRange, endRange);
    }
  }

  /** After the intended prune no entry overlaps the range, and an invalidation that meets no entry changes nothing. */
  lemma {:induction false} PruneIsComplete(table: seq<Dmi>, startRange: u64, endRange: u64)
    ensures forall e :: e in Prune(table, startRange, endRange) ==> !Hit(e, startRange, endRange)
    ensures (forall e :: e in table ==> !Hit(e, startRange, endRange)) ==>
            Prune(table, startRange, endRange) == table
    decreases |table|
  {
    if table != [] {
      PruneIsComplete(table[1..], startRange, endRange);
    }
  }

  // One pass of each loop body, as a fact about sequences.

  lemma PruneAsWrittenStepHit(t: seq<Dmi>, i: nat, startRange: u64, endRange: u64)
    requires i < |t| && Hit(t[i], startRange, endRange)
    ensures var t' := t[..i] + t[i + 1..];
      && (i + 1 <= |t'| ==>
            t'[..i + 1] + PruneAsWritten(t'[i + 1..], startRange, endRange)
            == t[..i] + PruneAsWritten(t[i..], startRange, endRange))
      && (i + 1 > |t'| ==> t' == t[..i] + PruneAsWritten(t[i..], startRange, endRange))
  {
    var t' := t[..i] + t[i + 1..];
    if i + 1 < |t| {
      assert t[i..][2..] == t[i + 2..];
      assert t'[..i + 1] == t[..i] + [t[i + 1]];
      assert t'[i + 1..] == t[i + 2..];
    } else {
      assert t' == t[..i];
    }
  }

  lemma PruneAsWrittenStepMiss(t: seq<Dmi>, i: nat, startRange: u64, endRange: u64)
    requires i < |t| && !Hit(t[i], startRange, endRange)
    ensures t[..i + 1] + PruneAsWritten(t[i + 1..], startRange, endRange)
            == t[..i] + PruneAsWritten(t[i..], startRange, endRange)
  {
    assert t[i..][1..] == t[i + 1..];
    assert t[..i + 1] == t[..i] + [t[i]];
  }

  lemma PruneStepHit(t: seq<Dmi>, i: nat, startRange: u64, endRange: u64)
    requires i < |t| && Hit(t[i], startRange, endRange)
    ensures var t' := t[..i] + t[i + 1..];
      t'[..i] + Prune(t'[i..], startRange, endRange) == t[..i] + Prune(t[i..], startRange, endRange)
  {
    var t' := t[..i] + t[i + 1..];
    var u := t[i..];
    assert t'[..i] == t[..i];
    assert u[0] == t[i] && u[1..] == t'[i..];
    assert Prune(u, startRange, endRange) == Prune(t'[i..], startRange, endRange);
  }

  lemma PruneStepMiss(t: seq<Dmi>, i: nat, startRange: u64, endRange: u64)
    requires i < |t| && !Hit(t[i], startRange, endRange)
    ensures t[..i + 1] + Prune(t[i + 1..], startRange, endRange)
            == t[..i] + Prune(t[i..], startRange, endRange)
  {
    var u := t[i..];
    assert u[0] == t[i] && u[1..] == t[i + 1..];
    assert Prune(u, startRange, endRange) == [t[i]] + Prune(t[i + 1..], startRange, endRange);
    assert t[..i + 1] == t[..i] + [t[i]];
  }

  lemma EraseKeepsElements(t: seq<Dmi>, i: nat, r: seq<Dmi>)
    requires i < |t| && r == t[..i] + t[i + 1..]
    ensures forall k :: 0 <= k < |r| ==> r[k] in t
  {
    forall k | 0 <= k < |r|
      ensures r[k] in t
    {
      if k < i {
        assert r[k] == t[k];
      } else {
        assert r[k] == t[k + 1];
      }
    }
  }

  // ---------------------------------------------------------------------------
  // The initiator as an object.

  class Initiator {
    /** The table of DMI grants, in the order they were granted. */
    var dmiTable: seq<Dmi>
    /** The word the initiator writes from and reads into. */
    var data: int
    /** The quantum keeper's local time offset, in nanoseconds. */
    var localTime: nat

    ghost predicate Valid()
      reads this
    {
      forall e :: e in dmiTable ==> Usable(e)
    }

    constructor ()
      ensures Valid() && dmiTable == [] && localTime == 0
    {
      dmiTable := [];
      data := 0;
      localTime := 0;
    }

    /** The scan of the table before every access. */
    method Lookup(addr: u64, cmd: Command) returns (hit: bool, index: nat)
      ensures hit ==> index < |dmiTable| && Matches(dmiTable[index], addr, cmd)
      ensures hit ==> forall j :: 0 <= j < index ==> !Matches(dmiTable[j], addr, cmd)
      ensures !hit ==> forall j :: 0 <= j < |dmiTable| ==> !Matches(dmiTable[j], addr, cmd)
      ensures (if hit then Some(index) else None) == FirstMatch(dmiTable, addr, cmd)
    {
      hit, index := false, 0;
      var i := 0;
      while i < |dmiTable|
        invariant 0 <= i <= |dmiTable|
        invariant forall j :: 0 <= j < i ==> !Matches(dmiTable[j], addr, cmd)
      {
        var e := dmiTable[i];
        if addr >= e.startAddress && addr <= e.endAddress {
          if cmd == WriteCommand && IsWriteAllowed(e.access) {
            return true, i;
          } else if cmd == ReadCommand && IsReadAllowed(e.access) {
            return true, i;
          }
        }
        i := i + 1;
      }
    }

    /**
     * A hit: the word at offset `addr - start` of the granted memory is
     * written from, or read into, `data`, and the local time advances by the
     * entry's latency for that direction.
     */
    method DirectAccess(index: nat, addr: u64, cmd: Command)
      requires Valid() && index < |dmiTable| && Matches(dmiTable[index], addr, cmd)
      modifies this, if dmiTable[index].ptr.WordPtr? then {dmiTable[index].ptr.block} else {}
      ensures Valid() && dmiTable == old(dmiTable) && Usable(dmiTable[index])
      ensures var e := dmiTable[index];
        && WordIndex(e, addr) < e.ptr.block.Length
        && localTime == old(localTime) + HitLatency(e, cmd)
        && (cmd == WriteCommand ==>
              data == old(data) && e.ptr.block[..] == old(e.ptr.block[..])[WordIndex(e, addr) := data])
        && (cmd == ReadCommand ==>
              data == e.ptr.block[WordIndex(e, addr)] && e.ptr.block[..] == old(e.ptr.block[..]))
    {
      var e := dmiTable[index];
      assert Usable(e);
      WordIndexInBounds(e, addr);
      var w := e.ptr.word + (addr - e.startAddress) / 4;
      if cmd == WriteCommand {
        e.ptr.block[w] := data;
        localTime := localTime + e.writeLatency;
      } else {
        data := e.ptr.block[w];
        localTime := localTime + e.readLatency;
      }
    }

    /** After a miss: a successful grant is appended, with no check for duplicates. */
    method RecordGrant(granted: bool, dmi: Dmi)
      requires Valid() && (granted ==> Usable(dmi))
      modifies this
      ensures Valid()
      ensures dmiTable == if granted then old(dmiTable) + [dmi] else old(dmiTable)
      ensures data == old(data) && localTime == old(localTime)
    {
      if granted {
        dmiTable := dmiTable + [dmi];
      }
    }

    /** `invalidate_direct_mem_ptr`, as written: erase inside an index loop that always advances. */
    method InvalidateDirectMemPtr(startRange: u64, endRange: u64)
      requires Valid()
      modifies this
      ensures Valid()
      ensures dmiTable == PruneAsWritten(old(dmiTable), startRange, endRange)
      ensures data == old(data) && localTime == old(localTime)
    {
      ghost var goal := PruneAsWritten(dmiTable, startRange, endRange);
      var i := 0;
      while i < |dmiTable|
        invariant Valid()
        invariant i <= |dmiTable| + 1
        invariant i <= |dmiTable| ==> dmiTable[..i] + PruneAsWritten(dmiTable[i..], startRange, endRange) == goal
        invariant i > |dmiTable| ==> dmiTable == goal
        invariant data == old(data) && localTime == old(localTime)
      {
        var e := dmiTable[i];
        if startRange <= e.endAddress && endRange >= e.startAddress {
          PruneAsWrittenStepHit(dmiTable, i, startRange, endRange);
          var erased := dmiTable[..i] + dmiTable[i + 1..];
          EraseKeepsElements(dmiTable, i, erased);
          dmiTable := erased;
        } else {
          PruneAsWrittenStepMiss(dmiTable, i, startRange, endRange);
        }
        i := i + 1;
      }
      if i <= |dmiTable| {
        assert dmiTable[..i] == dmiTable;
      }
    }

    /** The corrected handler: the index only advances past an entry that stays. */
    method InvalidateDirectMemPtrCorrected(startRange: u64, endRange: u64)
      requires Valid()
      modifies this
      ensures Valid()
      ensures dmiTable == Prune(old(dmiTable), startRange, endRange)
      ensures data == old(data) && localTime == old(localTime)
    {
      ghost var goal := Prune(dmiTable, startRange, endRange);
      var i := 0;
      while i < |dmiTable|
        invariant Valid()
        invariant i <= |dmiTable|
        invariant dmiTable[..i] + Prune(dmiTable[i..], startRange, endRange) == goal
        invariant data == old(data) && localTime == old(localTime)
        decreases |dmiTable| - i
      {
        var e := dmiTable[i];
        if startRange <= e.endAddress && endRange >= e.startAddress {
          PruneStepHit(dmiTable, i, startRange, endRange);
          var erased := dmiTable[..i] + dmiTable[i + 1..];
          EraseKeepsElements(dmiTable, i, erased);
          dmiTable := erased;
        } else {
          PruneStepMiss(dmiTable, i, startRange, endRange);
          i := i + 1;
        }
      }
      assert dmiTable[..i] == dmiTable;
    }
  }
}
