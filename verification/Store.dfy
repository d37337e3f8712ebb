/** The two tables of the log, records and signed_tree_heads, as a transactional store with primary keys. */
module Store {
  import opened Bytes
  import opened JsText
  import opened Signer
  import opened RecordHash
  import opened TreeHead

  type Company = JsString

  /** The rows of one company: the primary keys are (company, idx) and (company, tree_size). */
  datatype Tables = Tables(records: map<int, Record>, heads: map<int, SignedTreeHead>)

  const NO_ROWS := Tables(map[], map[])

  // ---------- Rows in key order ----------

  lemma Inhabited(s: set<int>)
    ensures s == {} || exists y :: y in s
  {
    if forall y :: y !in s {
      assert s == {};
    }
  }

  lemma {:induction false} LeastExists(s: set<int>)
    requires s != {}
    ensures exists m :: m in s && forall x :: x in s ==> m <= x
    decreases |s|
  {
    Inhabited(s);
    var y :| y in s;
    var rest := s - {y};
    assert s == rest + {y};
    if rest != {} {
      LeastExists(rest);
      var m :| m in rest && forall x :: x in rest ==> m <= x;
      var least := if y < m then y else m;
      assert least in s && forall x :: x in s ==> least <= x;
    } else {
      assert y in s && forall x :: x in s ==> y <= x;
    }
  }

  function Least(s: set<int>): (m: int)
    requires s != {}
    ensures m in s && forall x :: x in s ==> m <= x
  {
    LeastExists(s);
    var m :| m in s && forall x :: x in s ==> m <= x;
    m
  }

  /** ORDER BY key ASC. */
  function Ascending(s: set<int>): (r: seq<int>)
    ensures forall x :: x in r <==> x in s
    decreases |s|
  {
    if s == {} then []
    else
      var m := Least(s);
      [m] + Ascending(s - {m})
  }

  /** SELECT ... FROM records ORDER BY idx ASC. */
  function AllRecords(t: Tables): seq<Record> {
    var keys := Ascending(t.records.Keys);
    seq(|keys|, i requires 0 <= i < |keys| => assert keys[i] in keys; t.records[keys[i]])
  }

  function Greatest(s: set<int>): (m: int)
    requires s != {}
    ensures m in s && forall x :: x in s ==> x <= m
  {
    var negated := set x | x in s :: -x;
    assert -Least(s) in negated;
    assert forall x :: x in s ==> -x in negated;
    -Least(negated)
  }

  /** SELECT ... FROM signed_tree_heads ORDER BY tree_size DESC LIMIT 1. */
  function LatestHead(t: Tables): (head: Option<SignedTreeHead>)
    ensures head == None <==> t.heads == map[]
    ensures head.Some? ==> exists k :: k in t.heads && head.value == t.heads[k] && forall j :: j in t.heads ==> j <= k
  {
    if t.heads == map[] then None
    else
      assert t.heads.Keys != {};
      Some(t.heads[Greatest(t.heads.Keys)])
  }

  function HeadAt(t: Tables, size: int): Option<SignedTreeHead> {
    if size in t.heads then Some(t.heads[size]) else None
  }

  lemma {:induction false} AscendingInterval(s: set<int>, lo: int, hi: int)
    requires lo <= hi && forall x :: x in s <==> lo <= x < hi
    ensures |Ascending(s)| == hi - lo && forall i :: 0 <= i < hi - lo ==> Ascending(s)[i] == lo + i
    decreases hi - lo
  {
    if lo == hi {
      Inhabited(s);
    } else {
      assert lo in s;
      assert Least(s) == lo;
      AscendingInterval(s - {lo}, lo + 1, hi);
    }
  }

  lemma {:induction false} AscendingInOrder(s: set<int>)
    ensures |Ascending(s)| == |s| && forall i, j :: 0 <= i < j < |s| ==> Ascending(s)[i] < Ascending(s)[j]
    decreases |s|
  {
    if s != {} {
      AscendingInOrder(s - {Least(s)});
      LeastFirst(Least(s), Ascending(s - {Least(s)}), s - {Least(s)});
    }
  }

  lemma LeastFirst(m: int, keys: seq<int>, rest: set<int>)
    requires forall k :: k in keys ==> k in rest
    requires forall k :: k in rest ==> m < k
    requires forall i, j :: 0 <= i < j < |keys| ==> keys[i] < keys[j]
    ensures var all := [m] + keys; forall i, j :: 0 <= i < j < |all| ==> all[i] < all[j]
  {
    var all := [m] + keys;
    forall i, j | 0 <= i < j < |all|
      ensures all[i] < all[j]
    {
      assert all[j] == keys[j - 1] && keys[j - 1] in keys;
    }
  }

  /** Every row once, in the order of its key, for any table. */
  lemma AllRecordsExactly(t: Tables)
    ensures var keys := Ascending(t.records.Keys);
            && |AllRecords(t)| == |keys| == |t.records|
            && (forall k :: k in keys <==> k in t.records)
            && (forall i, j :: 0 <= i < j < |keys| ==> keys[i] < keys[j])
            && (forall i :: 0 <= i < |keys| ==> keys[i] in t.records && AllRecords(t)[i] == t.records[keys[i]])
  {
    AscendingInOrder(t.records.Keys);
    var keys := Ascending(t.records.Keys);
    forall i | 0 <= i < |keys|
      ensures keys[i] in t.records
    {
      assert keys[i] in keys;
    }
  }

  /** The rows of a gapless table are its records in order. */
  lemma AllRecordsOfGapless(t: Tables, n: nat)
    requires forall i :: i in t.records <==> 0 <= i < n
    ensures |AllRecords(t)| == n && forall i :: 0 <= i < n ==> AllRecords(t)[i] == t.records[i]
  {
    AscendingInterval(t.records.Keys, 0, n);
  }

  // ---------- Inserting ----------

  /** The values of an INTEGER column. */
  predicate InColumn(n: int) {
    -0x8000_0000 <= n < 0x8000_0000
  }

  /** The integer column idx of a record; None when its index is no 32-bit integer. */
  function ColumnIndex(n: Num): Option<int> {
    if n.Finite? && DecimalValue(n.text) >= 0 && Decimal(DecimalValue(n.text)) == n.text && InColumn(DecimalValue(n.text))
    then Some(DecimalValue(n.text))
    else None
  }

  lemma ColumnIndexOf(i: nat)
    ensures ColumnIndex(IndexNum(i)) == if i < 0x8000_0000 then Some(i) else None
  {
    DecimalRoundTrip(i);
  }

  /** A record and its tree head in one transaction; None when a primary key or the column type refuses them. */
  function Appended(t: Tables, record: Record, head: SignedTreeHead): Option<Tables> {
    var idx := ColumnIndex(record.index);
    if idx.None? || idx.value in t.records || !InColumn(head.treeSize) || head.treeSize in t.heads then None
    else Some(Tables(t.records[idx.value := record], t.heads[head.treeSize := head]))
  }

  /** INSERT ... ON CONFLICT (company_id, tree_size) DO NOTHING. */
  function WithHead(t: Tables, head: SignedTreeHead): Tables {
    if head.treeSize in t.heads then t else t.(heads := t.heads[head.treeSize := head])
  }

  ghost predicate IsColumnIndex(n: Num, i: nat) {
    i < 0x8000_0000 && n == IndexNum(i)
  }

  /** Both rows are new, all others stay, and a transaction is refused exactly when the index is no 32-bit integer or a
      primary key is taken. */
  lemma AppendedExactly(t: Tables, record: Record, head: SignedTreeHead)
    ensures var after := Appended(t, record, head);
            && (after.Some? <==> && (exists i: nat :: IsColumnIndex(record.index, i) && i !in t.records)
                                 && -0x8000_0000 <= head.treeSize < 0x8000_0000 && head.treeSize !in t.heads)
            && (after.Some? ==>
                  && (forall i: nat :: IsColumnIndex(record.index, i) ==> after.value.records == t.records[i := record])
                  && after.value.heads == t.heads[head.treeSize := head])
  {
    forall i: nat | IsColumnIndex(record.index, i)
      ensures ColumnIndex(record.index) == Some(i)
    {
      ColumnIndexOf(i);
    }
    if ColumnIndex(record.index).Some? {
      assert IsColumnIndex(record.index, ColumnIndex(record.index).value);
    }
  }

  /** A head of a size that is stored changes nothing; another one is added. */
  lemma WithHeadExactly(t: Tables, head: SignedTreeHead)
    ensures WithHead(t, head).records == t.records
    ensures WithHead(t, head).heads.Keys == t.heads.Keys + {head.treeSize}
    ensures forall k :: k in t.heads ==> WithHead(t, head).heads[k] == t.heads[k]
    ensures head.treeSize !in t.heads ==> WithHead(t, head).heads[head.treeSize] == head
  {
  }

  /** What can happen to a transaction besides a refused row: it fails before the commit, or the commit takes effect
      but its answer is lost. */
  datatype Weather = Fair | FailsBeforeCommit | AnswerLost

  class Database {
    var tables: map<Company, Tables>

    constructor ()
      ensures tables == map[]
    {
      tables := map[];
    }

    function Rows(company: Company): Tables
      reads this
    {
      if company in tables then tables[company] else NO_ROWS
    }

    method GetAllRecords(company: Company) returns (rows: seq<Record>)
      ensures rows == AllRecords(Rows(company))
    {
      rows := AllRecords(Rows(company));
    }

    method GetLatestSTH(company: Company) returns (head: Option<SignedTreeHead>)
      ensures head == LatestHead(Rows(company))
    {
      head := LatestHead(Rows(company));
    }

    method InsertSTH(company: Company, head: SignedTreeHead)
      modifies this
      ensures Rows(company) == WithHead(old(Rows(company)), head)
      ensures forall other :: other != company ==> Rows(other) == old(Rows(other))
    {
      tables := tables[company := WithHead(Rows(company), head)];
    }

    /** buildSth is called inside the transaction, after the record is inserted: built is its result, None when it
        throws.  All or nothing; an error may hide a commit only when its answer was lost. */
    method AppendRecordWithSTH(company: Company, record: Record, built: Option<SignedTreeHead>, weather: Weather)
      returns (committed: Option<SignedTreeHead>)
      modifies this
      ensures var rows := if built.Some? then Appended(old(Rows(company)), record, built.value) else None;
              && (committed.Some? <==> rows.Some? && weather.Fair?)
              && (committed.Some? ==> committed == built)
              && Rows(company) == if rows.Some? && !weather.FailsBeforeCommit? then rows.value else old(Rows(company))
      ensures forall other :: other != company ==> Rows(other) == old(Rows(other))
    {
      var before := tables;
      var rows := Rows(company);
      var idx := ColumnIndex(record.index);
      if idx.None? || idx.value in rows.records {
        return None;
      }
      tables := tables[company := rows.(records := rows.records[idx.value := record])];
      if built.None? || !InColumn(built.value.treeSize) || built.value.treeSize in rows.heads {
        tables := before;
        return None;
      }
      var sth := built.value;
      tables := tables[company := tables[company].(heads := rows.heads[sth.treeSize := sth])];
      assert tables == before[company := Appended(rows, record, sth).value];
      match weather {
        case FailsBeforeCommit =>
          tables := before;
          return None;
        case AnswerLost =>
          return None;
        case Fair =>
          return Some(sth);
      }
    }
  }
}
