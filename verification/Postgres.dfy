/** The PostgreSQL destination: one row per applied change, and one cursor row per
    stream, written together or not at all. */
module Postgres {
  datatype Change = Change(sequence: nat, cursor: string, operation: string, kind: string,
                           key: string, data: string, blockNumber: nat)

  /** A stream within one destination: what both primary keys begin with. */
  datatype StreamKey = StreamKey(processor: string, network: string, stream: string)

  datatype CursorRow = CursorRow(cursor: string, sequence: nat)

  datatype Tables = Tables(applied: map<(StreamKey, nat), Change>, cursors: map<StreamKey, CursorRow>)

  /** Insert a change's row, unless the stream already has one of its sequence. */
  function InsertRow(t: Tables, key: StreamKey, change: Change): Tables {
    if (key, change.sequence) in t.applied then t else t.(applied := t.applied[(key, change.sequence) := change])
  }

  /** Insert a stream's cursor, or move it unless that would take it back. */
  function UpsertCursor(t: Tables, key: StreamKey, row: CursorRow): Tables {
    if key in t.cursors && t.cursors[key].sequence > row.sequence then t
    else t.(cursors := t.cursors[key := row])
  }

  function Deliver(t: Tables, key: StreamKey, change: Change): Tables {
    UpsertCursor(InsertRow(t, key, change), key, CursorRow(change.cursor, change.sequence))
  }

  class Transaction {
    const key: StreamKey
    var tables: Tables

    constructor (key: StreamKey, tables: Tables)
      ensures this.key == key && this.tables == tables
    {
      this.key, this.tables := key, tables;
    }

    method Apply(change: Change)
      modifies this
      ensures tables == InsertRow(old(tables), key, change)
    {
      if (key, change.sequence) !in tables.applied {
        tables := tables.(applied := tables.applied[(key, change.sequence) := change]);
      }
    }

    method StoreLeaniCursor(cursor: string, sequence: nat)
      modifies this
      ensures tables == UpsertCursor(old(tables), key, CursorRow(cursor, sequence))
    {
      if key !in tables.cursors || tables.cursors[key].sequence <= sequence {
        tables := tables.(cursors := tables.cursors[key := CursorRow(cursor, sequence)]);
      }
    }
  }

  class Destination {
    const processor: string
    const network: string
    var tables: Tables

    constructor (processor: string, network: string)
      ensures this.processor == processor && this.network == network && tables == Tables(map[], map[])
    {
      this.processor, this.network := processor, network;
      tables := Tables(map[], map[]);
    }

    /** One change and its cursor in one transaction: both are written or, when
        the transaction fails at any point, neither. */
    method DeliverOne(stream: string, change: Change, commits: bool)
      modifies this
      ensures tables == if commits then Deliver(old(tables), StreamKey(processor, network, stream), change)
                        else old(tables)
    {
      var transaction := new Transaction(StreamKey(processor, network, stream), tables);
      transaction.Apply(change);
      transaction.StoreLeaniCursor(change.cursor, change.sequence);
      if commits {
        tables := transaction.tables;
      }
    }
  }

  // --------------------------------------------------------------- the meaning

  ghost predicate Ordered(log: seq<Change>) {
    forall i, j | 0 <= i < j < |log| :: log[i].sequence < log[j].sequence
  }

  /** The rows of `key` are the first `n` changes of `log`, each once and as the
      log has it, and its cursor row is the last of them. */
  ghost predicate HoldsPrefix(t: Tables, key: StreamKey, log: seq<Change>, n: nat) {
    && n <= |log|
    && (forall s | (key, s) in t.applied :: exists i :: 0 <= i < n && log[i].sequence == s)
    && (forall i {:trigger (key, log[i].sequence) in t.applied} | 0 <= i < n ::
          (key, log[i].sequence) in t.applied && t.applied[(key, log[i].sequence)] == log[i])
    && if n == 0 then key !in t.cursors
       else key in t.cursors && t.cursors[key] == CursorRow(log[n - 1].cursor, log[n - 1].sequence)
  }

  /** Delivering a change already held changes nothing; delivering the next one
      extends the prefix by it. */
  lemma DeliverExtends(t: Tables, key: StreamKey, log: seq<Change>, n: nat, i: nat)
    requires Ordered(log) && HoldsPrefix(t, key, log, n) && i <= n && i < |log|
    ensures i < n ==> Deliver(t, key, log[i]) == t
    ensures HoldsPrefix(Deliver(t, key, log[i]), key, log, if i < n then n else n + 1)
  {
    var t' := Deliver(t, key, log[i]);
    if i < n {
      if i == n - 1 {
        assert t.cursors[key := CursorRow(log[i].cursor, log[i].sequence)] == t.cursors;
      }
    } else {
      forall s | (key, s) in t'.applied ensures exists k :: 0 <= k < n + 1 && log[k].sequence == s {
        if s == log[n].sequence {
        } else {
          assert (key, s) in t.applied;
        }
      }
    }
  }

  /** Another stream's rows and cursor are untouched, rows are never rewritten,
      and no cursor moves back. */
  lemma DeliverFrame(t: Tables, key: StreamKey, change: Change, other: StreamKey, s: nat)
    ensures var t' := Deliver(t, key, change);
            && (other != key ==>
                  && ((other, s) in t'.applied <==> (other, s) in t.applied)
                  && (other in t'.cursors <==> other in t.cursors)
                  && (other in t.cursors ==> t'.cursors[other] == t.cursors[other]))
            && ((other, s) in t.applied ==> (other, s) in t'.applied && t'.applied[(other, s)] == t.applied[(other, s)])
            && (other in t.cursors ==> other in t'.cursors && t'.cursors[other].sequence >= t.cursors[other].sequence)
  {
  }

  lemma PrefixOfLongerLog(t: Tables, key: StreamKey, log: seq<Change>, n: nat, change: Change)
    requires HoldsPrefix(t, key, log, n)
    ensures HoldsPrefix(t, key, log + [change], n)
  {
    var log' := log + [change];
    forall s | (key, s) in t.applied ensures exists i :: 0 <= i < n && log'[i].sequence == s {
      var i :| 0 <= i < n && log[i].sequence == s;
      assert log'[i].sequence == s;
    }
    forall i | 0 <= i < n ensures (key, log'[i].sequence) in t.applied && t.applied[(key, log'[i].sequence)] == log'[i] {
      assert log'[i] == log[i];
      assert (key, log[i].sequence) in t.applied;
    }
  }
}
