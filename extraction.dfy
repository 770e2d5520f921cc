/** extract_record_elements of AppleHealthExtraction in
    extractapplehealth.py: every Record node becomes a row of the in-memory
    table named after its type, heart-rate children become rows of the
    InstantaneousBeatsPerMinute table, and the touched tables are queued and
    written to the database every n-th record and once more at the end.
    DataFrames are sequences of rows; the SQLite database is a map from table
    name to the rows written to it. */
module Extraction {
  import opened Wrappers
  import opened Seqs
  import opened HealthTree

  /** A DataFrame cell: an attribute string, or the integer "Index" column. */
  datatype Cell = Text(s: string) | Number(n: int)

  type Row = map<string, Cell>
  type Tables = map<string, seq<Row>>

  const BpmName := "InstantaneousBeatsPerMinute"
  /** TYPE_COL['Record']. */
  const TypeKey := "type"

  /** The rows of table `t`; a missing table has none. */
  function Get(m: Tables, t: string): seq<Row> {
    if t in m then m[t] else []
  }

  /** `m` with `rows` appended to table `t`. */
  function Add(m: Tables, t: string, rows: seq<Row>): Tables {
    m[t := Get(m, t) + rows]
  }

  /** The node count of `t`; a table not counted yet has none. */
  function Count(m: map<string, int>, t: string): int {
    if t in m then m[t] else 0
  }

  /** `t` appended to the queue unless it is already there. */
  function Enqueue(q: seq<string>, t: string): (r: seq<string>)
    ensures t in r && forall u :: u in r <==> u in q || u == t
    ensures NoDup(q) ==> NoDup(r)
  {
    if t in q then q else q + [t]
  }

  /** `pd.DataFrame([node.attrib])`: one row holding the attributes. */
  function AttribRow(attrib: map<string, string>): Row {
    map k | k in attrib :: Text(attrib[k])
  }

  /** A MetadataEntry child has the 'key' and 'value' the loop reads. */
  predicate MetadataWellFormed(c: Node) {
    c.tag == MetadataTag ==> "key" in c.attrib && "value" in c.attrib
  }

  /** A record the loop processes without KeyError. */
  predicate RecordWellFormed(node: Node) {
    TypeKey in node.attrib && AllMetadataWellFormed(node.children)
  }

  /** The timer update after a record finds the record's table timed: the
      table is timed already, or does not exist yet and is created with its
      timer. */
  predicate Timed(node: Node, timed: set<string>, tables: set<string>)
    requires TypeKey in node.attrib
  {
    TableName(node) in timed || TableName(node) !in tables
  }

  /** No record of `records` names a table that exists without a timer. */
  predicate AllTimed(records: seq<Node>, timed: set<string>, tables: set<string>) {
    forall k :: 0 <= k < |records| ==> TypeKey in records[k].attrib ==> Timed(records[k], timed, tables)
  }

  predicate AllMetadataWellFormed(cs: seq<Node>) {
    forall i :: 0 <= i < |cs| ==> MetadataWellFormed(cs[i])
  }

  /** The table a record goes to. */
  function TableName(node: Node): string
    requires TypeKey in node.attrib
  {
    StripRecordPrefixes(node.attrib[TypeKey])
  }

  /** `row` with the key/value of every MetadataEntry child set in order. */
  function ApplyMetadata(row: Row, cs: seq<Node>): Row
    requires AllMetadataWellFormed(cs)
  {
    if cs == [] then row
    else
      assert MetadataWellFormed(cs[|cs| - 1]);
      var r := ApplyMetadata(row, cs[..|cs| - 1]);
      var c := cs[|cs| - 1];
      if c.tag == MetadataTag then r[c.attrib["key"] := Text(c.attrib["value"])] else r
  }

  /** The row of a record once its metadata children are applied. */
  function RecordRow(node: Node): Row
    requires RecordWellFormed(node)
  {
    ApplyMetadata(AttribRow(node.attrib), node.children)
  }

  /** `c` is a MetadataEntry for key `k`. */
  predicate IsEntry(c: Node, k: string) {
    c.tag == MetadataTag && "key" in c.attrib && c.attrib["key"] == k
  }

  /** `cs[j]` is the last MetadataEntry for key `k` in `cs`. */
  predicate LastEntry(cs: seq<Node>, j: int, k: string) {
    0 <= j < |cs| && IsEntry(cs[j], k) && forall l :: j < l < |cs| ==> !IsEntry(cs[l], k)
  }

  /** Metadata adds one column per key: a column is there after the
      children exactly when the attributes have it or some entry names it. */
  lemma {:induction false} MetadataColumns(row: Row, cs: seq<Node>, k: string)
    requires AllMetadataWellFormed(cs)
    ensures k in ApplyMetadata(row, cs) <==> k in row || exists j :: 0 <= j < |cs| && IsEntry(cs[j], k)
  {
    if cs != [] {
      var init, m := cs[..|cs| - 1], |cs| - 1;
      assert forall j :: 0 <= j < m ==> init[j] == cs[j];
      MetadataColumns(row, init, k);
      if !IsEntry(cs[m], k) && exists j :: 0 <= j < |cs| && IsEntry(cs[j], k) {
        var j :| 0 <= j < |cs| && IsEntry(cs[j], k);
        assert IsEntry(init[j], k);
      }
    }
  }

  /** The last entry for a key wins. */
  lemma {:induction false} MetadataLastWins(row: Row, cs: seq<Node>, k: string, j: int)
    requires AllMetadataWellFormed(cs) && LastEntry(cs, j, k)
    ensures k in ApplyMetadata(row, cs) && ApplyMetadata(row, cs)[k] == Text(cs[j].attrib["value"])
  {
    var init, m := cs[..|cs| - 1], |cs| - 1;
    assert MetadataWellFormed(cs[m]);
    if j < m {
      assert forall l :: 0 <= l < m ==> init[l] == cs[l];
      assert LastEntry(init, j, k);
      MetadataLastWins(row, init, k, j);
    }
  }

  /** A column no entry names keeps the attribute value. */
  lemma {:induction false} MetadataKeepsAttribute(row: Row, cs: seq<Node>, k: string)
    requires AllMetadataWellFormed(cs) && k in row
    requires forall j :: 0 <= j < |cs| ==> !IsEntry(cs[j], k)
    ensures k in ApplyMetadata(row, cs) && ApplyMetadata(row, cs)[k] == row[k]
  {
    if cs != [] {
      var init, m := cs[..|cs| - 1], |cs| - 1;
      assert MetadataWellFormed(cs[m]);
      assert forall j :: 0 <= j < m ==> init[j] == cs[j];
      MetadataKeepsAttribute(row, init, k);
    }
  }

  // ---------------------------------------------------------------------------
  // Heart-rate children

  /** The state of the child loop: `bpm_queue`, the beats already written,
      and whether a child other than a MetadataEntry or a beat was seen. */
  datatype BpmScan = BpmScan(pending: seq<Node>, emitted: seq<Node>, other: bool)

  function ScanChild(s: BpmScan, c: Node): BpmScan {
    if c.tag == MetadataTag then s
    else if c.tag == BpmName then s.(pending := s.pending + [c])
    else BpmScan([], s.emitted + s.pending, true)
  }

  /** The child loop over `cs`, as far as the beats are concerned. */
  function Scan(cs: seq<Node>): BpmScan {
    if cs == [] then BpmScan([], [], false) else ScanChild(Scan(cs[..|cs| - 1]), cs[|cs| - 1])
  }

  /** The children that are beats, in order. */
  function BpmChildren(cs: seq<Node>): (r: seq<Node>)
    ensures forall c :: c in r <==> c in cs && c.tag == BpmName
  {
    if cs == [] then []
    else BpmChildren(cs[..|cs| - 1]) + (if cs[|cs| - 1].tag == BpmName then [cs[|cs| - 1]] else [])
  }

  /** A child that is neither a MetadataEntry nor a beat. */
  predicate IsOther(c: Node) {
    c.tag != MetadataTag && c.tag != BpmName
  }

  /** Every beat is either written or still queued, in order; nothing is
      written unless some other child was seen. */
  lemma {:induction false} ScanKeepsBeats(cs: seq<Node>)
    ensures Scan(cs).emitted + Scan(cs).pending == BpmChildren(cs)
    ensures Scan(cs).other <==> exists j :: 0 <= j < |cs| && IsOther(cs[j])
    ensures !Scan(cs).other ==> Scan(cs).emitted == []
  {
    if cs != [] {
      var init := cs[..|cs| - 1];
      ScanKeepsBeats(init);
      assert forall j :: 0 <= j < |init| ==> init[j] == cs[j];
      if IsOther(cs[|cs| - 1]) {
        assert Scan(init).emitted + Scan(init).pending + [] == BpmChildren(init);
      }
    }
  }

  /** The beats before the last other child are written; those after it are
      still queued when the loop ends and are never written. */
  lemma {:induction false} BeatsAfterLastOtherAreDropped(cs: seq<Node>, j: nat)
    requires j < |cs| && IsOther(cs[j]) && forall l :: j < l < |cs| ==> !IsOther(cs[l])
    ensures Scan(cs).emitted == BpmChildren(cs[..j])
    ensures Scan(cs).pending == BpmChildren(cs[j + 1..])
  {
    var init := cs[..|cs| - 1];
    if j == |cs| - 1 {
      ScanKeepsBeats(init);
      assert cs[j + 1..] == [];
    } else {
      BeatsAfterLastOtherAreDropped(init, j);
      assert init[..j] == cs[..j];
      assert cs[j + 1..][..|cs[j + 1..]| - 1] == init[j + 1..];
    }
  }

  /** The row of a beat: its attributes, the record's table and the
      record's index in it. */
  function BpmRow(c: Node, t: string, index: int): Row {
    AttribRow(c.attrib)["Record table" := Text(t)]["Index" := Number(index)]
  }

  /** The rows of the beats `bs` of a record of table `t`, whose counter
      stood at `count` when the first was written. The counter read is
      `t`'s, so it moves along only when `t` is the beat table itself. */
  function BpmRows(bs: seq<Node>, t: string, count: int): (r: seq<Row>)
    ensures |r| == |bs|
  {
    seq(|bs|, j requires 0 <= j < |bs| => BpmRow(bs[j], t, count - 1 + (if t == BpmName then j else 0)))
  }

  lemma BpmRowsConcat(a: seq<Node>, b: seq<Node>, t: string, count: int)
    ensures BpmRows(a + b, t, count)
         == BpmRows(a, t, count) + BpmRows(b, t, count + (if t == BpmName then |a| else 0))
  {
  }

  // ---------------------------------------------------------------------------
  // What a run produces

  /** The node counter of `t` once one more node of it is appended: a table
      that does not exist yet is created with its counter reset to zero,
      even when a counter was left by an earlier extraction. */
  function CountAfter(counts: map<string, int>, tables: set<string>, t: string): int {
    (if t in tables then Count(counts, t) else 0) + 1
  }

  /** The rows appended to each table during a run (a table is a key once
      it was queued), the node counters, the tables created, in order, and
      the tables that exist. */
  datatype Produced = Produced(rows: Tables, counts: map<string, int>, created: seq<string>, tables: set<string>)

  /** One iteration of the record loop. */
  function Step(p: Produced, node: Node): Produced
    requires RecordWellFormed(node)
  {
    var t := TableName(node);
    var known := t in p.tables;
    var c := CountAfter(p.counts, p.tables, t);
    var counts2 := p.counts[t := c];
    var scan := Scan(node.children);
    var rows1 := Add(p.rows, t, [RecordRow(node)]);
    var rows2 := if scan.other then Add(rows1, BpmName, BpmRows(scan.emitted, t, c)) else rows1;
    Produced(rows2, counts2[BpmName := Count(counts2, BpmName) + |scan.emitted|],
             if known then p.created else p.created + [t], p.tables + {t})
  }

  predicate AllWellFormed(records: seq<Node>) {
    forall k :: 0 <= k < |records| ==> RecordWellFormed(records[k])
  }

  /** The record loop over `records`. */
  function Produce(p: Produced, records: seq<Node>): Produced
    requires AllWellFormed(records)
  {
    if records == [] then p else Step(Produce(p, records[..|records| - 1]), records[|records| - 1])
  }

  /** Extending the processed records by one. */
  lemma ProduceSnoc(p: Produced, records: seq<Node>, i: nat)
    requires i < |records| && AllWellFormed(records[..i]) && RecordWellFormed(records[i])
    ensures AllWellFormed(records[..i + 1])
    ensures Produce(p, records[..i + 1]) == Step(Produce(p, records[..i]), records[i])
  {
    var s := records[..i + 1];
    assert s[..i] == records[..i] && s[i] == records[i];
  }

  /** The rows of the records of type `t`, in order. */
  function RowsOfType(records: seq<Node>, t: string): seq<Row>
    requires AllWellFormed(records)
  {
    if records == [] then []
    else
      var last := records[|records| - 1];
      RowsOfType(records[..|records| - 1], t) + (if TableName(last) == t then [RecordRow(last)] else [])
  }

  /** The bookkeeping a run keeps: the beat table exists, and so does every
      table rows were produced for. */
  predicate Tracked(p: Produced) {
    BpmName in p.tables && p.rows.Keys <= p.tables
  }

  /** A run keeps its bookkeeping and only adds tables. */
  lemma {:induction false} ProduceTracked(p: Produced, records: seq<Node>)
    requires AllWellFormed(records) && Tracked(p)
    ensures Tracked(Produce(p, records)) && p.tables <= Produce(p, records).tables
  {
    if records != [] {
      ProduceTracked(p, records[..|records| - 1]);
    }
  }

  /** One iteration adds as many counts as rows to every table; the table it
      creates starts from none of either. */
  lemma StepCounts(p: Produced, node: Node, t: string)
    requires RecordWellFormed(node) && Tracked(p)
    ensures Count(Step(p, node).counts, t) - |Get(Step(p, node).rows, t)|
         == if t in Step(p, node).tables - p.tables then 0 else Count(p.counts, t) - |Get(p.rows, t)|
  {
    ScanKeepsBeats(node.children);
  }

  /** Node counting: every counter grows by the number of rows appended to
      its table, and the counter of a table created during the run ends at
      the table's row count, whatever counter an earlier extraction left. */
  lemma {:induction false} CountsFollowRows(p: Produced, records: seq<Node>, t: string)
    requires AllWellFormed(records) && Tracked(p)
    ensures Count(Produce(p, records).counts, t) - |Get(Produce(p, records).rows, t)|
         == if t in Produce(p, records).tables - p.tables then 0 else Count(p.counts, t) - |Get(p.rows, t)|
  {
    if records != [] {
      var init := records[..|records| - 1];
      CountsFollowRows(p, init, t);
      ProduceTracked(p, init);
      StepCounts(Produce(p, init), records[|records| - 1], t);
    }
  }

  /** Every record reaches the table named after its type, once, in the
      order of the records (the beat table also gets beat rows). */
  lemma {:induction false} RecordsReachTheirTable(p: Produced, records: seq<Node>, t: string)
    requires AllWellFormed(records)
    requires t != BpmName
    ensures Get(Produce(p, records).rows, t) == Get(p.rows, t) + RowsOfType(records, t)
  {
    if records != [] {
      var init := records[..|records| - 1];
      RecordsReachTheirTable(p, init, t);
      StepRowsOf(Produce(p, init), records[|records| - 1], t);
    }
  }

  /** One iteration appends the record's row to its own table and to no
      other table but the beat table. */
  lemma StepRowsOf(p: Produced, node: Node, t: string)
    requires RecordWellFormed(node) && t != BpmName
    ensures Get(Step(p, node).rows, t) == Get(p.rows, t) + (if TableName(node) == t then [RecordRow(node)] else [])
  {
  }

  /** The table names of `records`. */
  function TypesOf(records: seq<Node>): set<string>
    requires AllWellFormed(records)
  {
    set k | 0 <= k < |records| :: TableName(records[k])
  }

  lemma TypesOfSnoc(records: seq<Node>)
    requires AllWellFormed(records) && records != []
    ensures AllWellFormed(records[..|records| - 1])
    ensures TypesOf(records) == TypesOf(records[..|records| - 1]) + {TableName(records[|records| - 1])}
  {
    var init := records[..|records| - 1];
    assert forall k :: 0 <= k < |init| ==> init[k] == records[k];
    forall u | u in TypesOf(records) ensures u in TypesOf(init) || u == TableName(records[|records| - 1]) {
      var k :| 0 <= k < |records| && TableName(records[k]) == u;
      if k < |init| {
        assert TableName(init[k]) == u;
      }
    }
    forall u | u in TypesOf(init) ensures u in TypesOf(records) {
      var k :| 0 <= k < |init| && TableName(init[k]) == u;
      assert TableName(records[k]) == u;
    }
  }

  /** One iteration counts its record's table and the beat table, and
      creates the record's table when it does not exist. */
  lemma StepTables(p: Produced, node: Node)
    requires RecordWellFormed(node)
    ensures Step(p, node).counts.Keys == p.counts.Keys + {TableName(node), BpmName}
    ensures Step(p, node).tables == p.tables + {TableName(node)}
    ensures Step(p, node).created == if TableName(node) in p.tables then p.created else p.created + [TableName(node)]
  {
  }

  /** Each new table is created once, in order of first appearance; the
      tables grow by exactly the record types seen, and so do the counters,
      beside the beat table's. */
  lemma {:induction false} TablesCreatedOnce(p: Produced, records: seq<Node>)
    requires AllWellFormed(records)
    requires BpmName in p.counts
    requires NoDup(p.created) && forall t :: t in p.created ==> t in p.tables
    ensures NoDup(Produce(p, records).created)
    ensures forall t :: t in Produce(p, records).created ==> t in Produce(p, records).tables
    ensures Produce(p, records).tables == p.tables + TypesOf(records)
    ensures Produce(p, records).counts.Keys == p.counts.Keys + TypesOf(records)
    ensures forall t :: t in Produce(p, records).created <==> t in p.created || (t in TypesOf(records) && t !in p.tables)
  {
    if records != [] {
      var init, node := records[..|records| - 1], records[|records| - 1];
      TypesOfSnoc(records);
      TablesCreatedOnce(p, init);
      var q := Produce(p, init);
      var q' := Produce(p, records);
      assert q' == Step(q, node);
      StepTables(q, node);
      var t := TableName(node);
      if t !in q.tables {
        assert t !in q.created;
      }
      forall u ensures u in q'.created <==> u in p.created || (u in TypesOf(records) && u !in p.tables) {
        assert u in q'.created <==> u in q.created || (u == t && t !in q.tables);
      }
    }
  }

  // ---------------------------------------------------------------------------
  // The buffer invariant

  /** Every queued table was touched during the run. */
  ghost predicate QueuedTouched(queue: seq<string>, rows: Tables) {
    forall t :: t in queue ==> t in rows
  }

  /** Every row appended to a touched table is either still in its buffer or
      was written to the store, in order, after what the table held at the
      start. */
  ghost predicate RowsKept(store: Tables, buffers: Tables, rows: Tables, store0: Tables, start: Tables) {
    forall t :: t in rows ==> t in buffers && Get(store, t) + buffers[t] == Get(store0, t) + Get(start, t) + rows[t]
  }

  /** A touched table with rows in its buffer is queued. */
  ghost predicate BufferedQueued(buffers: Tables, rows: Tables, queue: seq<string>) {
    forall t :: t in rows && t !in queue ==> t in buffers && buffers[t] == []
  }

  /** Untouched tables are as they were at the start. */
  ghost predicate UntouchedKept(store: Tables, buffers: Tables, rows: Tables, store0: Tables, start: Tables) {
    forall t :: t !in rows ==> Get(store, t) == Get(store0, t) && Get(buffers, t) == Get(start, t)
  }

  /** The buffer invariant of the record loop. */
  ghost predicate Conserved(store: Tables, buffers: Tables, rows: Tables, queue: seq<string>,
                            store0: Tables, start: Tables)
  {
    && QueuedTouched(queue, rows)
    && RowsKept(store, buffers, rows, store0, start)
    && BufferedQueued(buffers, rows, queue)
    && UntouchedKept(store, buffers, rows, store0, start)
  }

  lemma AddRowsKept(store: Tables, buffers: Tables, rows: Tables, store0: Tables, start: Tables, t: string, added: seq<Row>)
    requires RowsKept(store, buffers, rows, store0, start) && UntouchedKept(store, buffers, rows, store0, start)
    ensures RowsKept(store, Add(buffers, t, added), Add(rows, t, added), store0, start)
  {
    forall u | u in Add(rows, t, added)
      ensures u in Add(buffers, t, added)
      ensures Get(store, u) + Add(buffers, t, added)[u] == Get(store0, u) + Get(start, u) + Add(rows, t, added)[u]
    {
      AddRowsKeptAt(Get(store, u), buffers, rows, Get(store0, u), Get(start, u), t, added, u);
    }
  }

  /** AddRowsKept for one table `u`, whose store rows are `s`, and `s0` and
      `s1` its rows in the store and the buffer at the start. */
  lemma AddRowsKeptAt(s: seq<Row>, buffers: Tables, rows: Tables, s0: seq<Row>, s1: seq<Row>,
                      t: string, added: seq<Row>, u: string)
    requires u in rows ==> u in buffers && s + buffers[u] == s0 + s1 + rows[u]
    requires u !in rows ==> s == s0 && Get(buffers, u) == s1
    requires u in Add(rows, t, added)
    ensures u in Add(buffers, t, added)
    ensures s + Add(buffers, t, added)[u] == s0 + s1 + Add(rows, t, added)[u]
  {
    var b, r := Add(buffers, t, added), Add(rows, t, added);
    if u != t {
      assert b[u] == buffers[u] && r[u] == rows[u];
    } else if t in rows {
      assert s + b[t] == (s + buffers[t]) + added;
      assert s0 + s1 + r[t] == (s0 + s1 + rows[t]) + added;
    } else {
      assert s + b[t] == s0 + s1 + added;
    }
  }

  lemma AddBufferedQueued(buffers: Tables, rows: Tables, queue: seq<string>, t: string, added: seq<Row>)
    requires BufferedQueued(buffers, rows, queue)
    ensures BufferedQueued(Add(buffers, t, added), Add(rows, t, added), Enqueue(queue, t))
  {
    var b, r, q := Add(buffers, t, added), Add(rows, t, added), Enqueue(queue, t);
    forall u | u in r && u !in q ensures u in b && b[u] == [] {
      assert u != t && b[u] == buffers[u];
    }
  }

  lemma AddUntouchedKept(store: Tables, buffers: Tables, rows: Tables, store0: Tables, start: Tables, t: string, added: seq<Row>)
    requires UntouchedKept(store, buffers, rows, store0, start)
    ensures UntouchedKept(store, Add(buffers, t, added), Add(rows, t, added), store0, start)
  {
    var b, r := Add(buffers, t, added), Add(rows, t, added);
    forall u | u !in r ensures Get(store, u) == Get(store0, u) && Get(b, u) == Get(start, u) {
      assert u != t && Get(b, u) == Get(buffers, u);
    }
  }

  /** Appending to a table and queueing it keeps the invariant. */
  lemma ConservedAdd(store: Tables, buffers: Tables, rows: Tables, queue: seq<string>,
                     store0: Tables, start: Tables, t: string, added: seq<Row>)
    requires Conserved(store, buffers, rows, queue, store0, start)
    ensures Conserved(store, Add(buffers, t, added), Add(rows, t, added), Enqueue(queue, t), store0, start)
  {
    AddRowsKept(store, buffers, rows, store0, start, t, added);
    AddBufferedQueued(buffers, rows, queue, t, added);
    AddUntouchedKept(store, buffers, rows, store0, start, t, added);
  }

  /** Once every queue is drained, each touched table's buffer is empty and
      the store holds what it held, then the table's start, then its rows;
      the other tables are as they were. */
  lemma ConservedFlushed(store: Tables, buffers: Tables, rows: Tables, store0: Tables, start: Tables)
    requires Conserved(store, buffers, rows, [], store0, start)
    ensures forall t :: t in rows ==>
      t in buffers && buffers[t] == [] && Get(store, t) == Get(store0, t) + Get(start, t) + rows[t]
    ensures forall t :: t !in rows ==> Get(store, t) == Get(store0, t) && Get(buffers, t) == Get(start, t)
  {
    forall t | t in rows
      ensures t in buffers && buffers[t] == [] && Get(store, t) == Get(store0, t) + Get(start, t) + rows[t]
    {
      assert t !in [];
      assert Get(store, t) + buffers[t] == Get(store0, t) + Get(start, t) + rows[t];
      assert Get(store, t) + [] == Get(store, t);
    }
  }

  /** Writing every queued buffer to the store and emptying it keeps the
      invariant and leaves nothing to queue. */
  lemma ConservedDrain(store: Tables, buffers: Tables, rows: Tables, queue: seq<string>,
                       store0: Tables, start: Tables, store': Tables, buffers': Tables)
    requires Conserved(store, buffers, rows, queue, store0, start)
    requires forall t :: t in queue ==> t in buffers && t in buffers' && buffers'[t] == []
                                        && Get(store', t) == Get(store, t) + buffers[t]
    requires forall t :: t !in queue ==> Get(store', t) == Get(store, t) && Get(buffers', t) == Get(buffers, t)
    requires buffers.Keys <= buffers'.Keys
    ensures Conserved(store', buffers', rows, [], store0, start)
  {
    forall t | t in rows
      ensures t in buffers' && buffers'[t] == [] && Get(store', t) == Get(store0, t) + Get(start, t) + rows[t]
    {
      assert t in buffers && Get(store, t) + buffers[t] == Get(store0, t) + Get(start, t) + rows[t];
      if t in queue {
        DrainedTouched(Get(store, t), buffers[t], Get(store0, t) + Get(start, t) + rows[t], Get(store', t));
      } else {
        assert buffers[t] == [] && Get(buffers', t) == Get(buffers, t);
        DrainedTouched(Get(store, t), [], Get(store0, t) + Get(start, t) + rows[t], Get(store', t));
      }
    }
    forall t | t !in rows
      ensures Get(store', t) == Get(store0, t) && Get(buffers', t) == Get(start, t)
    {
      assert t !in queue;
    }
  }

  /** A touched table's buffer, appended to its stored rows, leaves the
      same rows in the store and nothing buffered. */
  lemma DrainedTouched(stored: seq<Row>, buffered: seq<Row>, all: seq<Row>, stored': seq<Row>)
    requires stored + buffered == all && stored' == stored + buffered
    ensures stored' == all && stored' + [] == all
  {
  }

  /** The tables in `done` have had their buffers written to the store and
      emptied; every other table is as it was. */
  ghost predicate Drained(store: Tables, buffers: Tables, store0: Tables, buffers0: Tables, done: seq<string>) {
    && buffers.Keys == buffers0.Keys
    && (forall t :: t in done ==> t in buffers0 && buffers[t] == [] && Get(store, t) == Get(store0, t) + buffers0[t])
    && (forall t :: t !in done ==> Get(store, t) == Get(store0, t) && Get(buffers, t) == Get(buffers0, t))
  }

  lemma DrainedStep(store: Tables, buffers: Tables, store0: Tables, buffers0: Tables, done: seq<string>, name: string)
    requires Drained(store, buffers, store0, buffers0, done)
    requires name in buffers0 && name !in done
    ensures Drained(Add(store, name, buffers[name]), buffers[name := []], store0, buffers0, done + [name])
  {
    var s, b, d := Add(store, name, buffers[name]), buffers[name := []], done + [name];
    assert b.Keys == buffers0.Keys;
    forall t | t in d
      ensures t in buffers0 && b[t] == [] && Get(s, t) == Get(store0, t) + buffers0[t]
    {
      DrainedAt(store, buffers, store0, buffers0, done, name, t);
    }
    forall t | t !in d
      ensures Get(s, t) == Get(store0, t) && Get(b, t) == Get(buffers0, t)
    {
      assert t != name && t !in done;
      assert Get(s, t) == Get(store, t) && Get(b, t) == Get(buffers, t);
    }
  }

  lemma DrainedAt(store: Tables, buffers: Tables, store0: Tables, buffers0: Tables, done: seq<string>, name: string,
                  t: string)
    requires t in done ==> t in buffers0 && t in buffers && buffers[t] == [] && Get(store, t) == Get(store0, t) + buffers0[t]
    requires t == name && t !in done ==> Get(store, t) == Get(store0, t) && Get(buffers, t) == Get(buffers0, t)
    requires name in buffers0 && name in buffers && name !in done
    requires t in done + [name]
    ensures t in buffers0
    ensures buffers[name := []][t] == []
    ensures Get(Add(store, name, buffers[name]), t) == Get(store0, t) + buffers0[t]
  {
    if t != name {
      assert t in done;
    }
  }

  /** The replaced last row of a buffer is its new last row. */
  lemma ReplaceLast(s: seq<Row>, x: Row, y: Row)
    ensures (s + [x])[|s| := y] == s + [y]
  {
  }

  lemma AddTwice(m: Tables, t: string, a: seq<Row>, b: seq<Row>)
    ensures Add(Add(m, t, a), t, b) == Add(m, t, a + b)
  {
    assert Get(Add(m, t, a), t) + b == Get(m, t) + (a + b);
  }

  lemma AddNothing(m: Tables, t: string)
    requires t in m
    ensures Add(m, t, []) == m
  {
    assert m[t] + [] == m[t];
  }

  /** Setting a column of the record row at `i` of table `t` commutes with
      the beat rows appended after it, also when `t` is the beat table. */
  lemma UpdateRecordRow(a0: Tables, t: string, i: nat, m: Row, m': Row, extra: seq<Row>)
    requires t in a0 && i < |a0[t]| && BpmName in a0
    ensures var a := Add(a0[t := a0[t][i := m]], BpmName, extra);
      && t in a && i < |a[t]| && a[t][i] == m
      && a[t := a[t][i := m']] == Add(a0[t := a0[t][i := m']], BpmName, extra)
  {
    var x := a0[t := a0[t][i := m]];
    var a := Add(x, BpmName, extra);
    if t == BpmName {
      assert a == a0[t := a0[t][i := m] + extra];
      assert (a0[t][i := m] + extra)[i := m'] == a0[t][i := m'] + extra;
      assert Add(a0[t := a0[t][i := m']], BpmName, extra) == a0[t := a0[t][i := m'] + extra];
    } else {
      assert a[t] == a0[t][i := m];
      var y := a0[t := a0[t][i := m']];
      assert Get(x, BpmName) == a0[BpmName] == Get(y, BpmName);
      assert a0[t][i := m][i := m'] == a0[t][i := m'];
      assert a[t := a[t][i := m']] == y[BpmName := a0[BpmName] + extra];
    }
  }

  /** The buffers once the children of the record whose row sits at `i` of
      table `t` are processed: the row completed with their metadata, and the
      written beats appended to the beat table, numbered from `c`. */
  function ChildBuffers(a: Tables, t: string, i: nat, children: seq<Node>, c: int): Tables
    requires t in a && i < |a[t]| && AllMetadataWellFormed(children)
  {
    Add(a[t := a[t][i := ApplyMetadata(a[t][i], children)]], BpmName, BpmRows(Scan(children).emitted, t, c))
  }

  /** The node counters once the children are processed: one per beat written. */
  function ChildCounts(counts: map<string, int>, children: seq<Node>): map<string, int> {
    counts[BpmName := Count(counts, BpmName) + |Scan(children).emitted|]
  }

  /** The flush queue once the children are processed. */
  function ChildQueue(queue: seq<string>, children: seq<Node>): seq<string> {
    if Scan(children).other then Enqueue(queue, BpmName) else queue
  }

  /** The node counters after one iteration of the record loop: one more
      node of the record's type, and one per beat written. */
  function RecordCounts(counts: map<string, int>, tables: set<string>, node: Node): map<string, int>
    requires RecordWellFormed(node)
  {
    var t := TableName(node);
    ChildCounts(counts[t := CountAfter(counts, tables, t)], node.children)
  }

  /** The buffers after one iteration of the record loop: the attribute row
      appended to the record's table and completed with its metadata, and
      the written beats appended to the beat table. */
  function RecordBuffers(a: Tables, counts: map<string, int>, node: Node): Tables
    requires RecordWellFormed(node)
  {
    var t := TableName(node);
    ChildBuffers(Add(a, t, [AttribRow(node.attrib)]), t, |Get(a, t)|, node.children, CountAfter(counts, a.Keys, t))
  }

  /** The flush queue after one iteration of the record loop. */
  function RecordQueue(queue: seq<string>, node: Node): seq<string>
    requires RecordWellFormed(node)
  {
    ChildQueue(Enqueue(queue, TableName(node)), node.children)
  }

  /** The counters and created tables after one iteration of the record
      loop, spelled out the way the loop updates them. */
  lemma StepState(p: Produced, node: Node)
    requires RecordWellFormed(node) && BpmName in p.counts
    ensures var t := TableName(node);
      var counts2 := p.counts[t := CountAfter(p.counts, p.tables, t)];
      && Step(p, node).counts == counts2[BpmName := counts2[BpmName] + |Scan(node.children).emitted|]
      && Step(p, node).created == p.created + (if t in p.tables then [] else [t])
      && (forall u :: u in Step(p, node).created ==> u in p.created || u == t)
      && t in Step(p, node).rows
  {
  }

  /** The buffers after one iteration of the record loop: the record's row,
      with its metadata, replaces the attribute row appended to its table,
      and the written beats follow on the beat table. */
  lemma RecordStepConserved(p: Produced, node: Node, queue: seq<string>,
                            store: Tables, store0: Tables, start: Tables, a0: Tables)
    requires RecordWellFormed(node) && BpmName in a0 && a0.Keys == p.tables
    requires NoDup(queue) && Conserved(store, a0, p.rows, queue, store0, start)
    ensures NoDup(RecordQueue(queue, node))
    ensures Conserved(store, RecordBuffers(a0, p.counts, node), Step(p, node).rows, RecordQueue(queue, node), store0, start)
  {
    var t := TableName(node);
    var row := RecordRow(node);
    var scan := Scan(node.children);
    var a2, r2 := Add(a0, t, [row]), Add(p.rows, t, [row]);
    var beats := BpmRows(scan.emitted, t, CountAfter(p.counts, p.tables, t));
    RecordBuffersAdd(a0, p.counts, node);
    StepRowsAdd(p, node);
    ConservedAdd(store, a0, p.rows, queue, store0, start, t, [row]);
    if scan.other {
      ConservedAdd(store, a2, r2, Enqueue(queue, t), store0, start, BpmName, beats);
    }
  }

  /** RecordBuffers appends the record's row to its table and, when a
      non-beat child follows, the written beats to the beat table. */
  lemma RecordBuffersAdd(a: Tables, counts: map<string, int>, node: Node)
    requires RecordWellFormed(node) && BpmName in a
    ensures var t := TableName(node);
      var a2 := Add(a, t, [RecordRow(node)]);
      RecordBuffers(a, counts, node)
        == if Scan(node.children).other then Add(a2, BpmName, BpmRows(Scan(node.children).emitted, t, CountAfter(counts, a.Keys, t)))
           else a2
  {
    var t := TableName(node);
    var attribRow := AttribRow(node.attrib);
    var a1 := Add(a, t, [attribRow]);
    var i := |Get(a, t)|;
    var row := RecordRow(node);
    ScanKeepsBeats(node.children);
    ReplaceLast(Get(a, t), attribRow, row);
    assert a1[t][i] == attribRow;
    assert a1[t := a1[t][i := row]] == Add(a, t, [row]);
    if !Scan(node.children).other {
      AddNothing(Add(a, t, [row]), BpmName);
    }
  }

  /** Step appends the record's row to its table and, when a non-beat child
      follows, the written beats to the beat table. */
  lemma StepRowsAdd(p: Produced, node: Node)
    requires RecordWellFormed(node)
    ensures var t := TableName(node);
      var r2 := Add(p.rows, t, [RecordRow(node)]);
      Step(p, node).rows
        == if Scan(node.children).other then Add(r2, BpmName, BpmRows(Scan(node.children).emitted, t, CountAfter(p.counts, p.tables, t)))
           else r2
  {
  }

  /** One iteration of the record loop leaves the tables there were, and
      the record's. */
  lemma RecordBuffersKeys(a: Tables, counts: map<string, int>, node: Node)
    requires RecordWellFormed(node) && BpmName in a
    ensures RecordBuffers(a, counts, node).Keys == a.Keys + {TableName(node)}
  {
  }

  /** One iteration of the record loop, on the values it starts from:
      buffers `a0` and counters `n0` (those of `p`). The counters, the
      created tables and the buffers it leaves are those of Step, and the
      buffer invariant holds of them. */
  lemma RecordStepInvariant(p: Produced, node: Node, prefix: seq<string>, queue: seq<string>,
                            store: Tables, store0: Tables, start: Tables, a0: Tables, n0: map<string, int>)
    requires RecordWellFormed(node) && BpmName in a0 && BpmName in n0 && a0.Keys == p.tables && n0 == p.counts
    requires forall t :: t in p.created ==> t in p.rows
    requires NoDup(queue) && Conserved(store, a0, p.rows, queue, store0, start)
    ensures Step(p, node).counts == RecordCounts(n0, a0.Keys, node)
    ensures Step(p, node).tables == RecordBuffers(a0, n0, node).Keys
    ensures prefix + Step(p, node).created == prefix + p.created + (if TableName(node) in a0 then [] else [TableName(node)])
    ensures forall t :: t in Step(p, node).created ==> t in Step(p, node).rows
    ensures NoDup(RecordQueue(queue, node))
    ensures Conserved(store, RecordBuffers(a0, n0, node), Step(p, node).rows, RecordQueue(queue, node), store0, start)
  {
    StepBookkeeping(p, node, prefix, a0.Keys);
    RecordStepConserved(p, node, queue, store, store0, start, a0);
    RecordBuffersKeys(a0, n0, node);
  }

  /** The counters and created tables after one iteration of the record
      loop, given the tables `known` that exist before it. */
  lemma StepBookkeeping(p: Produced, node: Node, prefix: seq<string>, known: set<string>)
    requires RecordWellFormed(node) && BpmName in p.counts && known == p.tables
    requires forall t :: t in p.created ==> t in p.rows
    ensures Step(p, node).counts == RecordCounts(p.counts, known, node)
    ensures prefix + Step(p, node).created == prefix + p.created + (if TableName(node) in known then [] else [TableName(node)])
    ensures forall t :: t in Step(p, node).created ==> t in Step(p, node).rows
  {
    StepState(p, node);
    var t := TableName(node);
    var counts2 := p.counts[t := CountAfter(p.counts, p.tables, t)];
    assert Count(counts2, BpmName) == counts2[BpmName];
    var added := if t in known then [] else [t];
    assert prefix + (p.created + added) == prefix + p.created + added;
    forall u | u in Step(p, node).created ensures u in Step(p, node).rows {
      RowsOnlyGrow(p, node, u);
    }
  }

  /** A table touched before an iteration stays touched. */
  lemma RowsOnlyGrow(p: Produced, node: Node, t: string)
    requires RecordWellFormed(node) && BpmName in p.counts
    requires t in p.created ==> t in p.rows
    requires t in Step(p, node).created
    ensures t in Step(p, node).rows
  {
    StepState(p, node);
  }

  /** Whether a record's table is timed, on the timers and tables of the
      loop so far, is decided by those at its start: the tables created
      since were created with their timers. */
  lemma TimedNow(node: Node, timed0: set<string>, start: set<string>, tables: set<string>, timed: set<string>)
    requires TypeKey in node.attrib
    requires start <= tables && timed == timed0 + (tables - start)
    ensures Timed(node, timed, tables) <==> Timed(node, timed0, start)
  {
  }

  /** The timers of the tables created in one iteration join those of the
      tables created before it. */
  lemma TimersFollowTables(timed0: set<string>, start: set<string>, tables: set<string>, tables': set<string>,
                           timed: set<string>)
    requires start <= tables <= tables' && timed == timed0 + (tables - start)
    ensures timed + (tables' - tables) == timed0 + (tables' - start)
  {
  }

  lemma AllTimedSnoc(records: seq<Node>, i: nat, timed: set<string>, tables: set<string>)
    requires i < |records| && AllTimed(records[..i], timed, tables)
    requires TypeKey in records[i].attrib ==> Timed(records[i], timed, tables)
    ensures AllTimed(records[..i + 1], timed, tables)
  {
    assert forall k :: 0 <= k <= i ==> records[..i + 1][k] == records[k];
    assert forall k :: 0 <= k < i ==> records[..i][k] == records[k];
  }

  /** The state of the child loop once every child is processed is the one
      ChildBuffers, ChildCounts and ChildQueue describe. */
  lemma ChildrenFinished(t: string, nodeIdx: nat, a0: Tables, row0: Row, c: int, n0: map<string, int>,
                         queue: seq<string>, cs: seq<Node>, a: Tables, counts: map<string, int>, q: seq<string>)
    requires AllMetadataWellFormed(cs) && t in a0 && nodeIdx < |a0[t]| && BpmName in n0
    requires row0 == a0[t][nodeIdx]
    requires a == Add(a0[t := a0[t][nodeIdx := ApplyMetadata(row0, cs)]], BpmName, BpmRows(Scan(cs).emitted, t, c))
    requires counts == n0[BpmName := n0[BpmName] + |Scan(cs).emitted|]
    requires q == if Scan(cs).other then Enqueue(queue, BpmName) else queue
    ensures a == ChildBuffers(a0, t, nodeIdx, cs, c)
    ensures counts == ChildCounts(n0, cs)
    ensures q == ChildQueue(queue, cs)
  {
  }

  class AppleHealthExtraction {
    /** `all_tables`: the in-memory DataFrame of each table. */
    var allTables: Tables
    /** `num_nodes_by_elem`: the node counter of each table. */
    var numNodesByElem: map<string, int>
    /** `record_tables`: the tables created for Record nodes. */
    var recordTables: seq<string>
    /** The tables `extract_time_per_elem` has a timer for. */
    var timedTables: set<string>
    /** The database: the rows written to each table. */
    var store: Tables

    /** Every table has a counter (a counter may exist without its table,
        as the workout extraction's do), and every record table has a
        buffer. */
    predicate Valid()
      reads this
    {
      && allTables.Keys <= numNodesByElem.Keys
      && forall t :: t in recordTables ==> t in allTables
    }

    /** No record table has rows left to write. */
    predicate RecordTablesFlushed()
      reads this
    {
      forall t :: t in recordTables ==> Get(allTables, t) == []
    }

    /** The containers of `__init__` start empty, as does a new database. */
    constructor ()
      ensures Valid() && RecordTablesFlushed()
      ensures allTables == map[] && numNodesByElem == map[] && recordTables == [] && timedTables == {} && store == map[]
    {
      allTables, numNodesByElem, recordTables, timedTables, store := map[], map[], [], {}, map[];
    }

    /** dataframe_to_sql(rows, t, ifexists='append'). */
    method DataframeToSql(rows: seq<Row>, t: string)
      modifies this
      ensures store == Add(old(store), t, rows)
      ensures allTables == old(allTables) && numNodesByElem == old(numNodesByElem) && recordTables == old(recordTables) && timedTables == old(timedTables)
    {
      store := Add(store, t, rows);
    }

    /** The `while table_queue` loop: writes each queued table's buffer to
        the database and resets the buffer. */
    method DrainQueue(queue: seq<string>)
      requires forall t :: t in queue ==> t in allTables
      requires NoDup(queue)
      modifies this
      ensures allTables.Keys == old(allTables).Keys
      ensures forall t :: t in queue ==> allTables[t] == [] && Get(store, t) == Get(old(store), t) + old(allTables)[t]
      ensures forall t :: t !in queue ==> Get(store, t) == Get(old(store), t) && Get(allTables, t) == Get(old(allTables), t)
      ensures numNodesByElem == old(numNodesByElem) && recordTables == old(recordTables) && timedTables == old(timedTables)
    {
      var q := queue;
      ghost var i := 0;
      while q != []
        invariant 0 <= i <= |queue| && q == queue[i..]
        invariant Drained(store, allTables, old(store), old(allTables), queue[..i])
        invariant numNodesByElem == old(numNodesByElem) && recordTables == old(recordTables) && timedTables == old(timedTables)
        decreases |q|
      {
        var name := q[0];
        assert name == queue[i] && queue[..i + 1] == queue[..i] + [name];
        assert name !in queue[..i];
        DrainedStep(store, allTables, old(store), old(allTables), queue[..i], name);
        DataframeToSql(allTables[name], name);
        allTables := allTables[name := []];
        q := q[1..];
        i := i + 1;
      }
      assert queue[..i] == queue;
    }

    /** The `while bpm_queue` loop: one beat row per queued beat, indexed by
        the record's counter, counting each on the beat table. */
    method EmitBeats(t: string, bpmQueue: seq<Node>)
      requires Valid() && t in allTables && BpmName in allTables
      modifies this
      ensures Valid()
      ensures allTables == Add(old(allTables), BpmName, BpmRows(bpmQueue, t, old(numNodesByElem)[t]))
      ensures numNodesByElem == old(numNodesByElem)[BpmName := old(numNodesByElem)[BpmName] + |bpmQueue|]
      ensures recordTables == old(recordTables) && timedTables == old(timedTables) && store == old(store)
    {
      var queue := bpmQueue;
      var c := numNodesByElem[t];
      ghost var i := 0;
      AddNothing(allTables, BpmName);
      while queue != []
        invariant 0 <= i <= |bpmQueue| && queue == bpmQueue[i..]
        invariant allTables == Add(old(allTables), BpmName, BpmRows(bpmQueue[..i], t, c))
        invariant numNodesByElem == old(numNodesByElem)[BpmName := old(numNodesByElem)[BpmName] + i]
        invariant recordTables == old(recordTables) && timedTables == old(timedTables) && store == old(store) && Valid()
        decreases |queue|
      {
        var indexVal := numNodesByElem[t] - 1;
        assert indexVal == c - 1 + (if t == BpmName then i else 0);
        var row := BpmRow(queue[0], t, indexVal);
        assert bpmQueue[..i + 1] == bpmQueue[..i] + [queue[0]];
        assert BpmRows([queue[0]], t, c + (if t == BpmName then i else 0)) == [row];
        BpmRowsConcat(bpmQueue[..i], [queue[0]], t, c);
        AddTwice(old(allTables), BpmName, BpmRows(bpmQueue[..i], t, c), [row]);
        assert allTables[BpmName := allTables[BpmName] + [row]] == Add(allTables, BpmName, [row]);
        allTables := allTables[BpmName := allTables[BpmName] + [row]];
        numNodesByElem := numNodesByElem[BpmName := numNodesByElem[BpmName] + 1];
        queue := queue[1..];
        i := i + 1;
      }
      assert bpmQueue[..i] == bpmQueue;
    }

    /** The state of the child loop of a record of table `t` whose row sits
        at `nodeIdx`, once the children `cs` are processed: the row has their
        metadata, the beats written so far follow the buffers `a0` the loop
        started from, the rest wait in `bpmQueue`, and the beat table is
        queued once some other child was seen. */
    ghost predicate ChildrenDone(t: string, nodeIdx: nat, a0: Tables, row0: Row, c: int, n0: map<string, int>,
                                 queue: seq<string>, cs: seq<Node>, bpmQueue: seq<Node>, q: seq<string>)
      reads this
    {
      && AllMetadataWellFormed(cs)
      && t in a0 && nodeIdx < |a0[t]| && BpmName in a0 && BpmName in n0
      && bpmQueue == Scan(cs).pending
      && allTables == Add(a0[t := a0[t][nodeIdx := ApplyMetadata(row0, cs)]], BpmName, BpmRows(Scan(cs).emitted, t, c))
      && numNodesByElem == n0[BpmName := n0[BpmName] + |Scan(cs).emitted|]
      && q == if Scan(cs).other then Enqueue(queue, BpmName) else queue
    }

    /** One iteration of the child loop: a MetadataEntry sets a column of
        the record's row, a beat is queued, and any other child writes the
        queued beats. */
    method ExtractChild(t: string, nodeIdx: nat, child: Node, bpmQueue: seq<Node>, q: seq<string>,
                        ghost a0: Tables, ghost row0: Row, ghost c: int, ghost n0: map<string, int>,
                        ghost queue: seq<string>, ghost cs: seq<Node>)
      returns (r: Result<(seq<Node>, seq<string>)>)
      requires Valid() && t in allTables && BpmName in allTables && nodeIdx < |allTables[t]|
      requires t in n0 && c == n0[t] && ChildrenDone(t, nodeIdx, a0, row0, c, n0, queue, cs, bpmQueue, q)
      modifies this
      ensures Valid() && recordTables == old(recordTables) && timedTables == old(timedTables) && store == old(store)
      ensures allTables.Keys == old(allTables).Keys && nodeIdx < |allTables[t]|
      ensures r.Ok? <==> MetadataWellFormed(child)
      ensures r.Err? ==> r.error.KeyError?
      ensures r.Ok? ==> ChildrenDone(t, nodeIdx, a0, row0, c, n0, queue, cs + [child], r.value.0, r.value.1)
    {
      if child.tag == MetadataTag {
        r := ExtractMetadataChild(t, nodeIdx, child, bpmQueue, q, a0, row0, c, n0, queue, cs);
      } else if child.tag == BpmName {
        var cs' := cs + [child];
        assert cs'[..|cs|] == cs && cs'[|cs|] == child;
        assert Scan(cs') == ScanChild(Scan(cs), child);
        assert AllMetadataWellFormed(cs');
        assert ApplyMetadata(row0, cs') == ApplyMetadata(row0, cs);
        r := Ok((bpmQueue + [child], q));
      } else {
        r := ExtractOtherChild(t, nodeIdx, child, bpmQueue, q, a0, row0, c, n0, queue, cs);
        assert MetadataWellFormed(child);
      }
    }

    /** A MetadataEntry child: its 'value' under its 'key' in the record's
        row; a missing 'value' or 'key' raises KeyError. */
    method ExtractMetadataChild(t: string, nodeIdx: nat, child: Node, bpmQueue: seq<Node>, q: seq<string>,
                                ghost a0: Tables, ghost row0: Row, ghost c: int, ghost n0: map<string, int>,
                                ghost queue: seq<string>, ghost cs: seq<Node>)
      returns (r: Result<(seq<Node>, seq<string>)>)
      requires child.tag == MetadataTag
      requires Valid() && t in allTables && BpmName in allTables && nodeIdx < |allTables[t]|
      requires t in n0 && c == n0[t] && ChildrenDone(t, nodeIdx, a0, row0, c, n0, queue, cs, bpmQueue, q)
      modifies this
      ensures Valid() && recordTables == old(recordTables) && timedTables == old(timedTables) && store == old(store)
      ensures allTables.Keys == old(allTables).Keys && nodeIdx < |allTables[t]|
      ensures r.Ok? <==> MetadataWellFormed(child)
      ensures r.Err? ==> r.error.KeyError?
      ensures r.Ok? ==> ChildrenDone(t, nodeIdx, a0, row0, c, n0, queue, cs + [child], r.value.0, r.value.1)
    {
      if "value" !in child.attrib {
        return Err(KeyError("value"));
      }
      if "key" !in child.attrib {
        return Err(KeyError("key"));
      }
      var cs' := cs + [child];
      assert cs'[..|cs|] == cs && cs'[|cs|] == child;
      ghost var before := Scan(cs);
      ghost var meta := ApplyMetadata(row0, cs);
      assert Scan(cs') == ScanChild(before, child);
      assert AllMetadataWellFormed(cs');
      var updated := meta[child.attrib["key"] := Text(child.attrib["value"])];
      assert ApplyMetadata(row0, cs') == updated;
      UpdateRecordRow(a0, t, nodeIdx, meta, updated, BpmRows(before.emitted, t, c));
      allTables := allTables[t := allTables[t][nodeIdx := allTables[t][nodeIdx][child.attrib["key"] := Text(child.attrib["value"])]]];
      r := Ok((bpmQueue, q));
    }

    /** A child that is neither metadata nor a beat: the queued beats are
        written and the beat table is queued. */
    method ExtractOtherChild(t: string, nodeIdx: nat, child: Node, bpmQueue: seq<Node>, q: seq<string>,
                             ghost a0: Tables, ghost row0: Row, ghost c: int, ghost n0: map<string, int>,
                             ghost queue: seq<string>, ghost cs: seq<Node>)
      returns (r: Result<(seq<Node>, seq<string>)>)
      requires child.tag != MetadataTag && child.tag != BpmName
      requires Valid() && t in allTables && BpmName in allTables && nodeIdx < |allTables[t]|
      requires t in n0 && c == n0[t] && ChildrenDone(t, nodeIdx, a0, row0, c, n0, queue, cs, bpmQueue, q)
      modifies this
      ensures Valid() && recordTables == old(recordTables) && timedTables == old(timedTables) && store == old(store)
      ensures allTables.Keys == old(allTables).Keys && nodeIdx < |allTables[t]|
      ensures r.Ok? && ChildrenDone(t, nodeIdx, a0, row0, c, n0, queue, cs + [child], r.value.0, r.value.1)
    {
      var cs' := cs + [child];
      assert cs'[..|cs|] == cs && cs'[|cs|] == child;
      ghost var before := Scan(cs);
      ghost var meta := ApplyMetadata(row0, cs);
      assert Scan(cs') == ScanChild(before, child);
      assert AllMetadataWellFormed(cs');
      assert ApplyMetadata(row0, cs') == meta;
      ghost var base := a0[t := a0[t][nodeIdx := meta]];
      assert numNodesByElem[t] == c + (if t == BpmName then |before.emitted| else 0);
      EmitBeats(t, bpmQueue);
      BpmRowsConcat(before.emitted, before.pending, t, c);
      AddTwice(base, BpmName, BpmRows(before.emitted, t, c),
               BpmRows(before.pending, t, c + (if t == BpmName then |before.emitted| else 0)));
      var q' := q;
      if BpmName !in q' {
        q' := q' + [BpmName];
      }
      r := Ok(([], q'));
    }

    /** The loop over the children of a record whose row sits at `nodeIdx`
        of table `t`: metadata sets columns of that row, beats are queued
        and written when another child follows, which also queues the beat
        table. A MetadataEntry without 'value' or 'key' raises KeyError. */
    method ExtractRecordChildren(t: string, nodeIdx: nat, children: seq<Node>, queue: seq<string>)
      returns (r: Result<seq<string>>)
      requires Valid() && t in allTables && BpmName in allTables && nodeIdx < |allTables[t]|
      modifies this
      ensures Valid() && recordTables == old(recordTables) && timedTables == old(timedTables) && store == old(store)
      ensures allTables.Keys == old(allTables).Keys
      ensures r.Ok? <==> AllMetadataWellFormed(children)
      ensures r.Err? ==> r.error.KeyError?
      ensures r.Ok? ==>
        && allTables == ChildBuffers(old(allTables), t, nodeIdx, children, old(numNodesByElem)[t])
        && numNodesByElem == ChildCounts(old(numNodesByElem), children)
        && r.value == ChildQueue(queue, children)
    {
      var bpmQueue: seq<Node> := [];
      var q := queue;
      ghost var a0 := allTables;
      ghost var row0 := allTables[t][nodeIdx];
      ghost var c := numNodesByElem[t];
      ghost var n0 := numNodesByElem;
      assert a0[t][nodeIdx := row0] == a0[t];
      assert a0[t := a0[t][nodeIdx := row0]] == a0;
      AddNothing(a0, BpmName);
      assert n0[BpmName := n0[BpmName] + 0] == n0;
      for k := 0 to |children|
        invariant Valid() && recordTables == old(recordTables) && timedTables == old(timedTables) && store == old(store)
        invariant allTables.Keys == old(allTables).Keys && nodeIdx < |allTables[t]|
        invariant ChildrenDone(t, nodeIdx, a0, row0, c, n0, queue, children[..k], bpmQueue, q)
      {
        assert children[..k + 1] == children[..k] + [children[k]];
        var res := ExtractChild(t, nodeIdx, children[k], bpmQueue, q, a0, row0, c, n0, queue, children[..k]);
        if res.Err? {
          assert !MetadataWellFormed(children[k]);
          return Err(res.error);
        }
        bpmQueue, q := res.value.0, res.value.1;
      }
      assert children[..|children|] == children;
      ChildrenFinished(t, nodeIdx, a0, row0, c, n0, queue, children, allTables, numNodesByElem, q);
      r := Ok(q);
    }

    /** The first half of an iteration of the record loop: the table named
        after the record's type is queued, created if new (with its counter
        reset, its timer and its place in `record_tables`), and gets the
        attribute row; its counter moves on by one. */
    method AppendRecord(nodetype: string, attribRow: Row, queue: seq<string>) returns (nodeIdx: nat, tableQueue: seq<string>)
      requires Valid()
      modifies this
      ensures Valid()
      ensures tableQueue == Enqueue(queue, nodetype)
      ensures allTables == Add(old(allTables), nodetype, [attribRow]) && nodeIdx == |Get(old(allTables), nodetype)|
      ensures numNodesByElem == old(numNodesByElem)[nodetype := CountAfter(old(numNodesByElem), old(allTables).Keys, nodetype)]
      ensures recordTables == old(recordTables) + (if nodetype in old(allTables) then [] else [nodetype])
      ensures timedTables == old(timedTables) + (if nodetype in old(allTables) then {} else {nodetype})
      ensures store == old(store)
    {
      tableQueue := queue;
      if nodetype !in tableQueue {
        tableQueue := tableQueue + [nodetype];
      }
      if nodetype !in allTables {
        allTables := allTables[nodetype := []];
        recordTables := recordTables + [nodetype];
        numNodesByElem := numNodesByElem[nodetype := 0];
        timedTables := timedTables + {nodetype};
      }
      allTables := allTables[nodetype := allTables[nodetype] + [attribRow]];
      nodeIdx := |allTables[nodetype]| - 1;
      numNodesByElem := numNodesByElem[nodetype := numNodesByElem[nodetype] + 1];
    }

    /** One iteration of the record loop: the record's row is appended to
        the table named after its type (created and queued first if need
        be), then its children are processed, then the table's timer is
        advanced, which raises KeyError naming the table when it has none
        (the beat table, and tables made by the other extractions). */
    method ExtractRecord(node: Node, queue: seq<string>) returns (r: Result<seq<string>>)
      requires Valid() && BpmName in allTables
      modifies this
      ensures Valid() && BpmName in allTables && store == old(store)
      ensures r.Ok? <==> RecordWellFormed(node) && Timed(node, old(timedTables), old(allTables).Keys)
      ensures r.Err? ==> r.error.KeyError?
      ensures RecordWellFormed(node) ==> var t := TableName(node);
        && allTables == RecordBuffers(old(allTables), old(numNodesByElem), node)
        && numNodesByElem == RecordCounts(old(numNodesByElem), old(allTables).Keys, node)
        && recordTables == old(recordTables) + (if t in old(allTables) then [] else [t])
        && timedTables == old(timedTables) + (if t in old(allTables) then {} else {t})
        && (r.Ok? ==> r.value == RecordQueue(queue, node))
        && (r.Err? ==> r.error == KeyError(t))
    {
      if TypeKey !in node.attrib {
        return Err(KeyError(TypeKey));
      }
      var nodetype := TableName(node);
      ghost var n0, k0 := numNodesByElem, allTables.Keys;
      var nodeIdx, tableQueue := AppendRecord(nodetype, AttribRow(node.attrib), queue);
      ghost var n1 := numNodesByElem;
      assert n1 == n0[nodetype := CountAfter(n0, k0, nodetype)];
      assert n1[nodetype] == CountAfter(n0, k0, nodetype);
      var res := ExtractRecordChildren(nodetype, nodeIdx, node.children, tableQueue);
      if res.Err? {
        return Err(res.error);
      }
      assert numNodesByElem == ChildCounts(n1, node.children);
      if nodetype !in timedTables {
        return Err(KeyError(nodetype));
      }
      r := Ok(res.value);
    }

    /** One iteration of the record loop: the record is extracted, and
        after every n-th record (counting from 1) the queued tables are
        written. A malformed record, or one whose table has no timer, raises
        KeyError; n == 0 raises ZeroDivisionError once the record is
        extracted. */
    method ExtractRecordStep(i: nat, node: Node, n: int, queue: seq<string>, ghost p: Produced,
                             ghost prefix: seq<string>, ghost store0: Tables, ghost start: Tables)
      returns (r: Result<seq<string>>)
      requires Valid() && BpmName in allTables && numNodesByElem == p.counts && allTables.Keys == p.tables
      requires recordTables == prefix + p.created && forall t :: t in p.created ==> t in p.rows
      requires NoDup(queue) && Conserved(store, allTables, p.rows, queue, store0, start)
      modifies this
      ensures Valid() && BpmName in allTables
      ensures !RecordWellFormed(node) ==> r.Err? && r.error.KeyError?
      ensures RecordWellFormed(node) && !Timed(node, old(timedTables), old(allTables).Keys) ==>
        r == Err(KeyError(TableName(node)))
      ensures RecordWellFormed(node) && Timed(node, old(timedTables), old(allTables).Keys) ==>
        (r.Err? <==> n == 0) && (r.Err? ==> r.error == ZeroDivisionError)
      ensures r.Ok? ==> var p' := Step(p, node);
        && numNodesByElem == p'.counts && allTables.Keys == p'.tables
        && timedTables == old(timedTables) + (p'.tables - p.tables)
        && recordTables == prefix + p'.created && (forall t :: t in p'.created ==> t in p'.rows)
        && NoDup(r.value) && Conserved(store, allTables, p'.rows, r.value, store0, start)
        && ((i + 1) % n == 0 ==> r.value == [])
    {
      ghost var a0, n0, s0, t0 := allTables, numNodesByElem, store, timedTables;
      var res := ExtractRecord(node, queue);
      if res.Err? {
        return Err(res.error);
      }
      assert RecordWellFormed(node) && Timed(node, t0, a0.Keys);
      ghost var t := TableName(node);
      ghost var p' := Step(p, node);
      RecordStepInvariant(p, node, prefix, queue, s0, store0, start, a0, n0);
      assert p'.tables - p.tables == if t in a0 then {} else {t};
      assert timedTables == t0 + (p'.tables - p.tables);
      var q := res.value;
      if n == 0 {
        return Err(ZeroDivisionError);
      }
      if (i + 1) % n == 0 {
        ghost var s1, b1 := store, allTables;
        DrainQueue(q);
        ConservedDrain(s1, b1, Step(p, node).rows, q, store0, start, store, allTables);
        q := [];
      }
      r := Ok(q);
    }

    /** The final check: the record tables with rows left, and how many. */
    method UnresolvedTables() returns (unresolved: seq<(string, nat)>)
      requires forall t :: t in recordTables ==> t in allTables
      ensures forall e :: e in unresolved <==> e.0 in recordTables && e.1 == |allTables[e.0]| && e.1 > 0
      ensures unresolved == [] <==> RecordTablesFlushed()
    {
      unresolved := [];
      for i := 0 to |recordTables|
        invariant forall e :: e in unresolved <==> e.0 in recordTables[..i] && e.1 == |allTables[e.0]| && e.1 > 0
      {
        var name := recordTables[i];
        assert recordTables[..i + 1] == recordTables[..i] + [name];
        var len := |allTables[name]|;
        if len > 0 {
          unresolved := unresolved + [(name, len)];
        }
      }
      assert recordTables[..|recordTables|] == recordTables;
      if unresolved != [] {
        assert unresolved[0] in unresolved;
      }
      if !RecordTablesFlushed() {
        var t :| t in recordTables && Get(allTables, t) != [];
        assert (t, |allTables[t]|) in unresolved;
      }
    }

    /** extract_record_elements(n): the loop over the Record nodes, writing
        the queued tables every n-th record and once more at the end, then
        listing the record tables with rows left. A record without 'type'
        or with a malformed MetadataEntry raises KeyError, and so does one
        whose table exists without a timer; n == 0 raises
        ZeroDivisionError at the first `i % n`. */
    method ExtractRecordElements(records: seq<Node>, n: int) returns (r: Result<seq<(string, nat)>>)
      requires Valid() && RecordTablesFlushed()
      modifies this
      ensures Valid()
      ensures r.Ok? <==> && AllWellFormed(records)
                         && AllTimed(records, old(timedTables), old(allTables).Keys + {BpmName})
                         && (n != 0 || records == [])
      ensures r.Err? ==> r.error.KeyError? || r.error == ZeroDivisionError
      ensures r.Ok? ==> r.value == [] && RecordTablesFlushed()
      ensures r.Ok? ==>
        var start := old(allTables)[BpmName := []];
        var p := Produce(Produced(map[], old(numNodesByElem)[BpmName := 0], [], start.Keys), records);
        && numNodesByElem == p.counts
        && allTables.Keys == p.tables
        && timedTables == old(timedTables) + (p.tables - start.Keys)
        && recordTables == old(recordTables) + [BpmName] + p.created
        && (forall t :: t in p.rows ==> t in allTables && allTables[t] == []
                                        && Get(store, t) == Get(old(store), t) + Get(start, t) + p.rows[t])
        && (forall t :: t !in p.rows ==> Get(store, t) == Get(old(store), t) && Get(allTables, t) == Get(start, t))
    {
      var tableQueue: seq<string> := [];
      allTables := allTables[BpmName := []];
      numNodesByElem := numNodesByElem[BpmName := 0];
      recordTables := recordTables + [BpmName];
      ghost var start := allTables;
      ghost var store0 := store;
      ghost var timed0 := timedTables;
      ghost var p0 := Produced(map[], numNodesByElem, [], allTables.Keys);
      assert start == old(allTables)[BpmName := []] && store0 == old(store) && timed0 == old(timedTables);
      assert start.Keys == old(allTables).Keys + {BpmName};
      assert p0 == Produced(map[], old(numNodesByElem)[BpmName := 0], [], start.Keys);
      ghost var p := p0;
      for i := 0 to |records|
        invariant AllWellFormed(records[..i])
        invariant AllTimed(records[..i], timed0, start.Keys)
        invariant p == Produce(p0, records[..i])
        invariant Valid() && BpmName in allTables
        invariant numNodesByElem == p.counts && allTables.Keys == p.tables
        invariant start.Keys <= p.tables && timedTables == timed0 + (p.tables - start.Keys)
        invariant recordTables == old(recordTables) + [BpmName] + p.created
        invariant forall t :: t in p.created ==> t in p.rows
        invariant NoDup(tableQueue)
        invariant Conserved(store, allTables, p.rows, tableQueue, store0, start)
        invariant i > 0 ==> n != 0
      {
        ghost var timed1 := timedTables;
        var res := ExtractRecordStep(i, records[i], n, tableQueue, p, old(recordTables) + [BpmName], store0, start);
        if TypeKey in records[i].attrib {
          TimedNow(records[i], timed0, start.Keys, p.tables, timed1);
        }
        if res.Err? {
          if !RecordWellFormed(records[i]) {
            assert !AllWellFormed(records) by {
              assert !RecordWellFormed(records[i]);
            }
          } else if !Timed(records[i], timed0, start.Keys) {
            assert !AllTimed(records, timed0, start.Keys) by {
              assert TypeKey in records[i].attrib;
            }
          }
          return Err(res.error);
        }
        tableQueue := res.value;
        ProduceSnoc(p0, records, i);
        AllTimedSnoc(records, i, timed0, start.Keys);
        ghost var p' := Step(p, records[i]);
        assert timedTables == timed0 + (p'.tables - start.Keys) by {
          assert timedTables == timed1 + (p'.tables - p.tables);
          TimersFollowTables(timed0, start.Keys, p.tables, p'.tables, timed1);
        }
        p := p';
      }
      assert records[..|records|] == records;
      ghost var s1, b1 := store, allTables;
      DrainQueue(tableQueue);
      ConservedDrain(s1, b1, p.rows, tableQueue, store0, start, store, allTables);
      ConservedFlushed(store, allTables, p.rows, store0, start);
      tableQueue := [];
      var unresolved := UnresolvedTables();
      r := Ok(unresolved);
    }
  }
}
