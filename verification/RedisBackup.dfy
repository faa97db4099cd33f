/**
 Protocol-level backup of a Redis database: a SCAN loop that writes one frame per key, and a restore that
 flushes the database and replays the frames it can read.
 */
module RedisBackup {
  import opened Common
  import opened RedisFrames

  type Millis = n: nat | n < 0x8000_0000_0000_0000

  /** A stored value: its serialized form, as DUMP returns it, and the time it has left, if it expires. */
  datatype Stored = Stored(payload: Bytes, expiry: Option<Millis>)

  type Keyspace = map<Bytes, Stored>

  /** One reply to SCAN: the next cursor and a page of keys. */
  datatype Page = Page(next: nat, keys: seq<Bytes>)

  datatype RestoreError = OldFormat | RestoreRejected

  // ---------- commands ----------

  function Pttl(db: Keyspace, key: Bytes): i64 {
    if key !in db then -2 else
    match db[key].expiry
    case None => -1
    case Some(ms) => ms
  }

  function Dump(db: Keyspace, key: Bytes): Option<Bytes> {
    if key in db then Some(db[key].payload) else None
  }

  /** RESTORE key ttl payload REPLACE, for a ttl that is not negative; ttl 0 means "never expires". */
  function Restore(db: Keyspace, e: Entry): Keyspace
    requires e.ttl >= 0
  {
    db[e.key := Stored(e.val, if e.ttl == 0 then None else Some(e.ttl))]
  }

  // ---------- specification ----------

  function EntryFor(db: Keyspace, key: Bytes): seq<Entry> {
    match Dump(db, key)
    case None => []
    case Some(val) =>
      var pttl := Pttl(db, key);
      [Entry(key, if pttl < 0 then 0 else pttl, val)]
  }

  function DumpEntries(db: Keyspace, keys: seq<Bytes>): seq<Entry> {
    if |keys| == 0 then [] else DumpEntries(db, keys[..|keys| - 1]) + EntryFor(db, keys[|keys| - 1])
  }

  function DumpFile(db: Keyspace, keys: seq<Bytes>): Bytes {
    MAGIC + Encode(DumpEntries(db, keys))
  }

  /** The keyspace after RESTORE of each entry in turn, stopping at one Redis rejects. */
  function Replay(db: Keyspace, es: seq<Entry>): Keyspace
    decreases |es|
  {
    if |es| == 0 || es[0].ttl < 0 then db else Replay(Restore(db, es[0]), es[1..])
  }

  predicate Accepted(es: seq<Entry>) {
    forall e <- es :: e.ttl >= 0
  }

  /** SCAN ends with the first reply whose cursor is 0. */
  predicate ScanReplies(pages: seq<Page>) {
    && |pages| > 0
    && pages[|pages| - 1].next == 0
    && forall i :: 0 <= i < |pages| - 1 ==> pages[i].next != 0
  }

  function ScannedKeys(pages: seq<Page>): seq<Bytes> {
    if |pages| == 0 then [] else ScannedKeys(pages[..|pages| - 1]) + pages[|pages| - 1].keys
  }

  /** What a restored value looks like: a key with 0 ms left comes back without an expiry. */
  function Revived(v: Stored): Stored {
    if v.expiry == Some(0) then v.(expiry := None) else v
  }

  ghost function Saved(db: Keyspace, keys: seq<Bytes>): Keyspace {
    map k | k in db && k in keys :: Revived(db[k])
  }

  // ---------- the two loops ----------

  class Redis {
    var db: Keyspace

    /** `redis_dump_to_file`, where `replies` are the server's answers to the SCAN calls. */
    method DumpToFile(replies: seq<Page>) returns (out: Bytes)
      requires ScanReplies(replies)
      ensures out == DumpFile(db, ScannedKeys(replies))
    {
      out := MAGIC;
      var turn := 0;
      while true
        invariant turn < |replies|
        invariant out == DumpFile(db, ScannedKeys(replies[..turn]))
        decreases |replies| - turn
      {
        var (next, keys) := (replies[turn].next, replies[turn].keys);
        out := DumpPage(ScannedKeys(replies[..turn]), keys, out);
        assert replies[..turn + 1][..turn] == replies[..turn];
        if next == 0 {
          assert replies[..turn + 1] == replies;
          break;
        }
        turn := turn + 1;
      }
    }

    /** The inner loop: one page of keys, after the keys in `before` have been written. */
    method DumpPage(ghost before: seq<Bytes>, keys: seq<Bytes>, written: Bytes) returns (out: Bytes)
      requires written == DumpFile(db, before)
      ensures out == DumpFile(db, before + keys)
    {
      out := written;
      assert before + keys[..0] == before;
      for i := 0 to |keys|
        invariant out == DumpFile(db, before + keys[..i])
      {
        var key := keys[i];
        DumpOneMore(db, before, keys, i);
        var pttl := Pttl(db, key);
        var dump := Dump(db, key);
        if dump.None? {
          continue;
        }
        var val := dump.value;
        var ttl: i64 := if pttl < 0 then 0 else pttl;
        WriteFrame(out, Entry(key, ttl, val));
        OneFrame(Entry(key, ttl, val));
        out := out + U32Bytes(LenAsU32(key)) + key + I64Bytes(ttl) + U32Bytes(LenAsU32(val)) + val;
      }
      assert before + keys[..|keys|] == before + keys;
    }

    /** `redis_restore_from_file`. */
    method RestoreFromFile(data: Bytes) returns (r: Result<(), RestoreError>)
      modifies this
      ensures !(MAGIC <= data) ==> r == Err(OldFormat) && db == old(db)
      ensures MAGIC <= data ==>
        var es := Decode(data[|MAGIC|..]);
        db == Replay(map[], es) && r == if Accepted(es) then Ok(()) else Err(RestoreRejected)
    {
      if !(MAGIC <= data) {
        return Err(OldFormat);
      }
      var pos := |MAGIC|;
      db := map[];
      while pos + 4 <= |data|
        invariant pos <= |data|
        invariant Outcome(db, data, pos) == Outcome(map[], data, |MAGIC|)
        decreases |data| - pos
      {
        var frame, next := NextFrame(db, data, pos);
        if frame.None? {
          return Ok(());
        }
        if frame.value.ttl < 0 {
          return Err(RestoreRejected);
        }
        db := Restore(db, frame.value);
        pos := next;
      }
      NoHeader(data[pos..]);
      OutcomeAtEnd(db, data, pos);
      r := Ok(());
    }
  }

  /** One turn of the restore loop: the reads and length guards, one after the other. */
  method ReadFrame(data: Bytes, start: nat) returns (frame: Option<Entry>, pos: nat)
    requires start + 4 <= |data|
    ensures frame.None? <==> ParseFrame(data[start..]).None?
    ensures frame.Some? ==> ParseFrame(data[start..]) == Some((frame.value, pos - start)) && pos <= |data|
  {
    ParseAt(data, start);
    pos := start;
    var klen := ReadU32(data[pos..pos + 4]);
    pos := pos + 4;
    if pos + klen > |data| { return None, pos; }
    var key := data[pos..pos + klen];
    pos := pos + klen;
    if pos + 8 > |data| { return None, pos; }
    var ttl := ReadI64(data[pos..pos + 8]);
    pos := pos + 8;
    if pos + 4 > |data| { return None, pos; }
    var vlen := ReadU32(data[pos..pos + 4]);
    pos := pos + 4;
    if pos + vlen > |data| { return None, pos; }
    var val := data[pos..pos + vlen];
    pos := pos + vlen;
    frame := Some(Entry(key, ttl, val));
  }

  /** What restoring entries comes to: the final keyspace, and whether Redis takes every entry. */
  ghost function After(db: Keyspace, es: seq<Entry>): (Keyspace, bool) {
    (Replay(db, es), Accepted(es))
  }

  /** What is left to do from position `pos`. */
  ghost function Outcome(db: Keyspace, data: Bytes, pos: nat): (Keyspace, bool)
    requires pos <= |data|
  {
    After(db, Decode(data[pos..]))
  }

  lemma OutcomeAtEnd(db: Keyspace, data: Bytes, pos: nat)
    requires pos <= |data| && ParseFrame(data[pos..]) == None
    ensures Outcome(db, data, pos) == (db, true)
  {}

  lemma OutcomeOfTurn(db: Keyspace, data: Bytes, pos: nat, e: Entry, n: nat)
    requires pos <= |data| && ParseFrame(data[pos..]) == Some((e, n))
    ensures 0 < n && pos + n <= |data|
    ensures Outcome(db, data, pos) == if e.ttl < 0 then (db, false) else Outcome(Restore(db, e), data, pos + n)
  {
    DecodeStep(data[pos..], e, n);
    DropTwice(data, pos, n);
    AfterOne(db, e, Decode(data[pos + n..]));
  }

  lemma DropTwice(data: Bytes, pos: nat, n: nat)
    requires pos + n <= |data|
    ensures data[pos..][n..] == data[pos + n..]
  {}

  lemma DecodeStep(d: Bytes, e: Entry, n: nat)
    requires ParseFrame(d) == Some((e, n))
    ensures 0 < n <= |d| && Decode(d) == [e] + Decode(d[n..])
  {}

  lemma AfterOne(db: Keyspace, e: Entry, rest: seq<Entry>)
    ensures After(db, [e] + rest) == if e.ttl < 0 then (db, false) else After(Restore(db, e), rest)
  {
    ReplayOne(db, e, rest);
  }

  lemma ReplayOne(db: Keyspace, e: Entry, rest: seq<Entry>)
    ensures Accepted([e] + rest) <==> e.ttl >= 0 && Accepted(rest)
    ensures Replay(db, [e] + rest) == if e.ttl < 0 then db else Replay(Restore(db, e), rest)
  {
    assert ([e] + rest)[1..] == rest && ([e] + rest)[0] == e;
    assert forall x <- rest :: x in [e] + rest;
  }

  lemma NoHeader(d: Bytes)
    requires |d| < 4
    ensures ParseFrame(d) == None
  {}

  /** The five writes of the dump loop append one frame. */
  lemma WriteFrame(out: Bytes, e: Entry)
    ensures out + U32Bytes(LenAsU32(e.key)) + e.key + I64Bytes(e.ttl) + U32Bytes(LenAsU32(e.val)) + e.val
      == out + EncodeFrame(e)
  {
    FiveWrites(out, U32Bytes(LenAsU32(e.key)), e.key, I64Bytes(e.ttl), U32Bytes(LenAsU32(e.val)), e.val);
  }

  lemma OneFrame(e: Entry)
    ensures Encode([e]) == EncodeFrame(e)
  {
    assert [e][1..] == [];
  }

  lemma FiveWrites(o: Bytes, a: Bytes, b: Bytes, c: Bytes, d: Bytes, e: Bytes)
    ensures o + a + b + c + d + e == o + ((a + b) + (c + (d + e)))
  {
    assert o + a + b + c + d + e == o + (a + b) + c + (d + e);
  }

  /** The next frame, and what reading it says about the outcome. */
  method NextFrame(ghost db: Keyspace, data: Bytes, start: nat) returns (frame: Option<Entry>, pos: nat)
    requires start + 4 <= |data|
    ensures frame.None? ==> Outcome(db, data, start) == (db, true)
    ensures frame.Some? ==> start < pos <= |data|
    ensures frame.Some? && frame.value.ttl < 0 ==> Outcome(db, data, start) == (db, false)
    ensures frame.Some? && frame.value.ttl >= 0 ==>
      Outcome(db, data, start) == Outcome(Restore(db, frame.value), data, pos)
  {
    frame, pos := ReadFrame(data, start);
    OutcomeOfFrame(db, data, start, frame, pos);
  }

  lemma OutcomeOfFrame(db: Keyspace, data: Bytes, start: nat, frame: Option<Entry>, pos: nat)
    requires start <= |data|
    requires frame.None? ==> ParseFrame(data[start..]) == None
    requires frame.Some? ==> ParseFrame(data[start..]) == Some((frame.value, pos - start)) && pos <= |data|
    ensures frame.None? ==> Outcome(db, data, start) == (db, true)
    ensures frame.Some? ==> start < pos <= |data|
    ensures frame.Some? && frame.value.ttl < 0 ==> Outcome(db, data, start) == (db, false)
    ensures frame.Some? && frame.value.ttl >= 0 ==>
      Outcome(db, data, start) == Outcome(Restore(db, frame.value), data, pos)
  {
    if frame.Some? {
      var n := pos - start;
      OutcomeOfTurn(db, data, start, frame.value, n);
      assert start + n == pos;
    } else {
      OutcomeAtEnd(db, data, start);
    }
  }

  /** One turn of the restore loop in absolute positions, guard by guard. */
  lemma ParseAt(data: Bytes, start: nat)
    requires start + 4 <= |data|
    ensures
      var frame := ParseFrame(data[start..]);
      var klen := ReadU32(data[start..start + 4]);
      var p1 := start + 4 + klen;
      if p1 > |data| || p1 + 8 > |data| || p1 + 12 > |data| then frame == None else
      var vlen := ReadU32(data[p1 + 8..p1 + 12]);
      var p2 := p1 + 12 + vlen;
      if p2 > |data| then frame == None else
      frame == Some((Entry(data[start + 4..p1], ReadI64(data[p1..p1 + 8]), data[p1 + 12..p2]), p2 - start))
  {
    var d := data[start..];
    assert data[start..start + 4] == d[..4];
    var klen := ReadU32(d[..4]);
    var p1 := start + 4 + klen;
    if p1 + 12 <= |data| {
      var d1 := d[4 + klen..];
      assert d1 == data[p1..];
      assert data[start + 4..p1] == d[4..4 + klen];
      assert data[p1..p1 + 8] == d1[..8];
      assert d1[8..] == data[p1 + 8..];
      BlockAt(data, p1 + 8);
    }
  }

  lemma BlockAt(data: Bytes, p: nat)
    requires p + 4 <= |data|
    ensures
      var n := ReadU32(data[p..p + 4]);
      ParseBlock(data[p..]) == if p + 4 + n > |data| then None else Some(data[p + 4..p + 4 + n])
  {
    assert data[p..][..4] == data[p..p + 4];
    var n := ReadU32(data[p..p + 4]);
    if p + 4 + n <= |data| {
      assert data[p..][4..4 + n] == data[p + 4..p + 4 + n];
    }
  }

  /** What the turn for key `i` of a page adds to the file. */
  lemma DumpOneMore(db: Keyspace, before: seq<Bytes>, keys: seq<Bytes>, i: nat)
    requires i < |keys|
    ensures DumpFile(db, before + keys[..i + 1]) ==
      DumpFile(db, before + keys[..i]) + Encode(EntryFor(db, keys[i]))
  {
    var done := before + keys[..i];
    var more := done + [keys[i]];
    assert before + keys[..i + 1] == more;
    assert more[..|more| - 1] == done;
    EncodeAppend(DumpEntries(db, done), EntryFor(db, keys[i]));
    Associative(MAGIC, Encode(DumpEntries(db, done)), Encode(EntryFor(db, keys[i])));
  }

  // ---------- the backup as a whole ----------

  lemma {:induction false} ReplayAppend(db: Keyspace, a: seq<Entry>, b: seq<Entry>)
    requires Accepted(a)
    ensures Replay(db, a + b) == Replay(Replay(db, a), b)
    decreases |a|
  {
    if |a| == 0 {
      assert a + b == b;
    } else {
      assert (a + b)[1..] == a[1..] + b;
      ReplayAppend(Restore(db, a[0]), a[1..], b);
    }
  }

  lemma AcceptedAppend(a: seq<Entry>, b: seq<Entry>)
    ensures Accepted(a) && Accepted(b) ==> Accepted(a + b)
  {}

  /** Keys that no entry names stay as they are. */
  lemma {:induction false} OtherKeysStay(db: Keyspace, es: seq<Entry>, key: Bytes)
    requires Accepted(es) && forall e <- es :: e.key != key
    ensures key in Replay(db, es) <==> key in db
    ensures key in db ==> Replay(db, es)[key] == db[key]
    decreases |es|
  {
    if |es| > 0 {
      assert es[0] in es && forall e <- es[1..] :: e in es;
      OtherKeysStay(Restore(db, es[0]), es[1..], key);
    }
  }

  /** RESTORE with REPLACE: of the entries of one key the last decides value and expiry. */
  lemma {:induction false} LastEntryWins(db: Keyspace, es: seq<Entry>, i: nat)
    requires Accepted(es) && i < |es| && forall j :: i < j < |es| ==> es[j].key != es[i].key
    ensures es[i].key in Replay(db, es)
    ensures Replay(db, es)[es[i].key] == Stored(es[i].val, if es[i].ttl > 0 then Some(es[i].ttl) else None)
    decreases |es|
  {
    var (next, rest) := (Restore(db, es[0]), es[1..]);
    assert es[0] in es && forall e <- rest :: e in es;
    if i == 0 {
      OtherKeysStay(next, rest, es[0].key);
    } else {
      assert rest[i - 1] == es[i];
      LastEntryWins(next, rest, i - 1);
    }
  }

  /** A dump is written key by key, in the order in which SCAN returned them, and page by page. */
  lemma {:induction false} DumpInScanOrder(db: Keyspace, a: seq<Bytes>, b: seq<Bytes>)
    ensures DumpEntries(db, a + b) == DumpEntries(db, a) + DumpEntries(db, b)
  {
    if |b| == 0 {
      assert a + b == a;
    } else {
      var n := |b| - 1;
      assert (a + b)[..|a + b| - 1] == a + b[..n];
      DumpInScanOrder(db, a, b[..n]);
    }
  }

  lemma {:induction false} ScannedExactly(pages: seq<Page>, key: Bytes)
    ensures key in ScannedKeys(pages) <==> exists i :: 0 <= i < |pages| && key in pages[i].keys
  {
    if |pages| > 0 {
      ScannedExactly(pages[..|pages| - 1], key);
      var last := pages[|pages| - 1];
      assert key in ScannedKeys(pages) <==> key in ScannedKeys(pages[..|pages| - 1]) || key in last.keys;
    }
  }

  /** Replaying the entries of a dump yields the scanned part of the keyspace, duplicates or not. */
  lemma {:induction false} ReplayOfDump(db: Keyspace, keys: seq<Bytes>)
    ensures Accepted(DumpEntries(db, keys))
    ensures Replay(map[], DumpEntries(db, keys)) == Saved(db, keys)
  {
    if |keys| > 0 {
      var init, key := keys[..|keys| - 1], keys[|keys| - 1];
      ReplayOfDump(db, init);
      var (a, b) := (DumpEntries(db, init), EntryFor(db, key));
      AcceptedAppend(a, b);
      ReplayAppend(map[], a, b);
      ReplayOneMore(db, init, key);
      assert init + [key] == keys;
    }
  }

  lemma ReplayOneMore(db: Keyspace, keys: seq<Bytes>, key: Bytes)
    ensures Accepted(EntryFor(db, key))
    ensures Replay(Saved(db, keys), EntryFor(db, key)) == Saved(db, keys + [key])
  {
    var (saved, more) := (Saved(db, keys), Saved(db, keys + [key]));
    if key in db {
      var e := EntryFor(db, key)[0];
      assert EntryFor(db, key) == [e] + [];
      ReplayOne(saved, e, []);
      assert Restore(saved, e) == more;
    } else {
      assert saved == more;
    }
  }

  ghost predicate FramableStore(db: Keyspace) {
    forall k <- db :: |k| < U32_RANGE && |db[k].payload| < U32_RANGE
  }

  lemma {:induction false} DumpIsFramable(db: Keyspace, keys: seq<Bytes>)
    requires FramableStore(db)
    ensures forall e <- DumpEntries(db, keys) ::
      && Framable(e) && e.ttl >= 0
      && e.key in db && e.key in keys && Restore(map[], e)[e.key] == Revived(db[e.key])
  {
    if |keys| > 0 {
      DumpIsFramable(db, keys[..|keys| - 1]);
    }
  }

  /**
   Dump, flush, restore. For a keyspace that does not change during the dump the restored keyspace is the
   scanned part of it, so it is the keyspace itself exactly when SCAN returned every key and no key had
   0 ms left.
   */
  lemma DumpThenRestore(db: Keyspace, keys: seq<Bytes>)
    requires FramableStore(db)
    ensures var es := Decode(DumpFile(db, keys)[|MAGIC|..]);
      && MAGIC <= DumpFile(db, keys)
      && Accepted(es)
      && Replay(map[], es) == Saved(db, keys)
      && (Replay(map[], es) == db <==> forall k <- db :: k in keys && db[k].expiry != Some(0))
  {
    var es := DumpEntries(db, keys);
    assert DumpFile(db, keys)[|MAGIC|..] == Encode(es);
    DumpIsFramable(db, keys);
    RoundTripExactly(es);
    ReplayOfDump(db, keys);
    var saved := Saved(db, keys);
    if saved == db {
      forall k <- db ensures k in keys && db[k].expiry != Some(0) {
        assert k in saved && saved[k] == Revived(db[k]);
      }
    }
  }

  lemma {:induction false} ReplayIsWithin(es: seq<Entry>, start: Keyspace, whole: Keyspace)
    requires start.Items <= whole.Items
    requires forall e <- es :: AgreesWith(e, whole)
    ensures Replay(start, es).Items <= whole.Items
    decreases |es|
  {
    if |es| > 0 {
      assert es[0] in es && AgreesWith(es[0], whole);
      var next := Restore(start, es[0]);
      forall item <- next.Items ensures item in whole.Items {
        if item.0 != es[0].key {
          assert item in start.Items;
        } else {
          assert item == (es[0].key, whole[es[0].key]);
        }
      }
      ReplayIsWithin(es[1..], next, whole);
    }
  }

  ghost predicate AgreesWith(e: Entry, whole: Keyspace) {
    e.ttl >= 0 && e.key in whole && Restore(map[], e)[e.key] == whole[e.key]
  }

  lemma DumpAgrees(db: Keyspace, keys: seq<Bytes>)
    requires FramableStore(db)
    ensures forall e <- DumpEntries(db, keys) :: Framable(e) && AgreesWith(e, Saved(db, keys))
  {
    DumpIsFramable(db, keys);
  }

  lemma CutFile(body: Bytes, n: nat)
    requires |MAGIC| <= n <= |MAGIC + body|
    ensures (MAGIC + body)[..n][|MAGIC|..] == body[..n - |MAGIC|]
  {}

  /** A backup file that lost its tail still restores, and never to a value that was not in the store. */
  lemma TruncatedBackup(db: Keyspace, keys: seq<Bytes>, n: nat)
    requires FramableStore(db)
    requires |MAGIC| <= n <= |DumpFile(db, keys)|
    ensures var es := Decode(DumpFile(db, keys)[..n][|MAGIC|..]);
      Accepted(es) && Replay(map[], es).Items <= Saved(db, keys).Items
  {
    var all := DumpEntries(db, keys);
    DumpAgrees(db, keys);
    CutFile(Encode(all), n);
    var k := TruncatedFile(all, n - |MAGIC|);
    assert forall e <- all[..k] :: e in all;
    ReplayIsWithin(all[..k], map[], Saved(db, keys));
  }
}
