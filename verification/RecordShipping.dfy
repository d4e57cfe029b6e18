/** After the assignment: every rank ships the records of a cluster to the rank that writes the cluster's file. */
module RecordShipping {
  import opened Sets
  import opened HardAssign
  import opened ThreadSlices
  import opened PartitionRounds
  import Q = QuotaRounds

  datatype Message = Count(n: int) | Record(row: nat)

  /** One entry for every cell of the row that names cluster `k`. */
  function RowRecords(row: seq<int>, i: nat, k: int): seq<nat> {
    if row == [] then []
    else RowRecords(row[..|row| - 1], i, k) + if row[|row| - 1] == k then [i] else []
  }

  /** The rows labelled `k`, row by row. */
  function Records(labels: seq<seq<int>>, k: int): seq<nat> {
    if labels == [] then []
    else Records(labels[..|labels| - 1], k) + RowRecords(labels[|labels| - 1], |labels| - 1, k)
  }

  ghost function Columns(row: seq<int>, k: int): set<int> {
    set j | 0 <= j < |row| && row[j] == k
  }

  lemma {:induction false} RowRecordsCount(row: seq<int>, i: nat, k: int)
    ensures |RowRecords(row, i, k)| == |Columns(row, k)|
    ensures forall x :: x in RowRecords(row, i, k) ==> x == i
  {
    if row != [] {
      var n := |row| - 1;
      RowRecordsCount(row[..n], i, k);
      assert Columns(row, k) == Columns(row[..n], k) + if row[n] == k then {n} else {};
    }
  }

  ghost function OnRow(i: int, columns: set<int>): set<(int, int)> {
    set j | j in columns :: (i, j)
  }

  lemma {:induction false} OnRowSize(i: int, columns: set<int>)
    ensures |OnRow(i, columns)| == |columns|
  {
    if columns != {} {
      var j := SomeElement(columns);
      OnRowSize(i, columns - {j});
      assert OnRow(i, columns) == OnRow(i, columns - {j}) + {(i, j)};
    }
  }

  /** As many records as cells: what the counters promise is what is found by scanning. */
  lemma {:induction false} RecordsCount(labels: seq<seq<int>>, C: nat, k: int)
    requires Rectangular(labels, |labels|, C)
    ensures |Records(labels, k)| == |Cells(labels, C, k)|
  {
    if labels == [] {
      assert Cells(labels, C, k) == {};
    } else {
      var n := |labels| - 1;
      RecordsCount(labels[..n], C, k);
      RowRecordsCount(labels[n], n, k);
      OnRowSize(n, Columns(labels[n], k));
      assert Cells(labels, C, k) == Cells(labels[..n], C, k) + OnRow(n, Columns(labels[n], k));
      assert Cells(labels[..n], C, k) !! OnRow(n, Columns(labels[n], k));
    }
  }

  /** A consistent rank sends no row twice for the same cluster, and sends them in row order. */
  lemma {:induction false} RecordsIncrease(labels: seq<seq<int>>, C: nat, k: int)
    requires Rectangular(labels, |labels|, C)
    requires forall i, j, l :: 0 <= i < |labels| && 0 <= j < l < C && labels[i][j] == k ==> labels[i][l] != k
    ensures forall x :: x in Records(labels, k) ==> x < |labels|
    ensures forall a, b :: 0 <= a < b < |Records(labels, k)| ==> Records(labels, k)[a] < Records(labels, k)[b]
  {
    if labels != [] {
      var n := |labels| - 1;
      RecordsIncrease(labels[..n], C, k);
      RowRecordsCount(labels[n], n, k);
      AtMostOne(labels[n], k);
      var before := Records(labels[..n], k);
      assert forall a :: 0 <= a < |before| ==> before[a] in before;
      assert forall a :: 0 <= a < |RowRecords(labels[n], n, k)| ==>
        RowRecords(labels[n], n, k)[a] in RowRecords(labels[n], n, k);
    }
  }

  lemma {:induction false} AtMostOne(row: seq<int>, k: int)
    requires forall j, l :: 0 <= j < l < |row| && row[j] == k ==> row[l] != k
    ensures |Columns(row, k)| <= 1
  {
    var cols := Columns(row, k);
    if cols != {} {
      var j := SomeElement(cols);
      assert cols == {j};
    }
  }

  lemma {:induction false} RecordsMembers(labels: seq<seq<int>>, k: int, i: nat)
    requires i < |labels|
    ensures i in Records(labels, k) <==> k in labels[i]
  {
    var n := |labels| - 1;
    RowRecordsCount(labels[n], n, k);
    RowRecordsFound(labels[n], n, k);
    if i < n {
      RecordsMembers(labels[..n], k, i);
    } else {
      RecordsBelow(labels[..n], k);
    }
  }

  lemma {:induction false} RowRecordsFound(row: seq<int>, i: nat, k: int)
    ensures i in RowRecords(row, i, k) <==> k in row
  {
    if row != [] {
      RowRecordsFound(row[..|row| - 1], i, k);
      assert row == row[..|row| - 1] + [row[|row| - 1]];
    }
  }

  lemma {:induction false} RecordsBelow(labels: seq<seq<int>>, k: int)
    ensures forall x :: x in Records(labels, k) ==> x < |labels|
  {
    if labels != [] {
      RecordsBelow(labels[..|labels| - 1], k);
      RowRecordsCount(labels[|labels| - 1], |labels| - 1, k);
    }
  }

  /**
    What a rank ships for cluster `k`: exactly its rows labelled `k`, each once, in row order, as many as it counted.
   */
  lemma ShippedRecords(rank: RankState, k: nat)
    requires Consistent(rank, rank.C) && k < rank.K
    ensures var rows := Records(rank.labels, k);
            && |rows| == ColumnSum(rank.newCounts, k)
            && (forall a, b :: 0 <= a < b < |rows| ==> rows[a] < rows[b])
            && (forall i: nat :: i in rows <==> i < |rank.dist| && k in rank.labels[i])
  {
    RecordsCount(rank.labels, rank.C, k);
    forall i, j, l | 0 <= i < |rank.dist| && 0 <= j < l < rank.C && rank.labels[i][j] == k
      ensures rank.labels[i][l] != k
    {
      NoRepeatedLabel(rank, rank.C, i, j, l);
    }
    RecordsIncrease(rank.labels, rank.C, k);
    forall i: nat
      ensures i in Records(rank.labels, k) <==> i < |rank.dist| && k in rank.labels[i]
    {
      if i < |rank.dist| {
        RecordsMembers(rank.labels, k, i);
      }
    }
  }

  function AsRecords(rows: seq<nat>): seq<Message> {
    seq(|rows|, i requires 0 <= i < |rows| => Record(rows[i]))
  }

  /** The scan over rows and columns that both sender and owner run. */
  method Scan(rank: RankState, k: nat) returns (rows: seq<nat>)
    requires Consistent(rank, rank.C) && k < rank.K
    ensures rows == Records(rank.labels, k)
  {
    rows := [];
    for j := 0 to |rank.dist|
      invariant rows == Records(rank.labels[..j], k)
    {
      for kk := 0 to rank.C
        invariant rows == Records(rank.labels[..j], k) + RowRecords(rank.labels[j][..kk], j, k)
      {
        assert rank.labels[j][..kk + 1][..kk] == rank.labels[j][..kk];
        if rank.labels[j][kk] == ToLabel(k) {
          rows := rows + [j];
        }
      }
      assert rank.labels[j][..rank.C] == rank.labels[j];
      assert rank.labels[..j + 1][..j] == rank.labels[..j];
    }
    assert rank.labels[..|rank.dist|] == rank.labels;
  }

  /** The assignment stage is over on this rank and its counts are the local ones. */
  ghost predicate Ready(rank: RankState, k: nat)
    reads rank
  {
    Consistent(rank, rank.C) && k < rank.K && rank.counts[k] == ColumnSum(rank.newCounts, k)
  }

  /** A rank that does not own cluster `k` sends its count, then the records. */
  method Send(rank: RankState, k: nat) returns (sent: seq<Message>)
    requires Ready(rank, k)
    ensures sent == [Count(|Records(rank.labels, k)|)] + AsRecords(Records(rank.labels, k))
  {
    RecordsCount(rank.labels, rank.C, k);
    var rows := Scan(rank, k);
    sent := [Count(rank.counts[k])];
    for i := 0 to |rows|
      invariant sent == [Count(|rows|)] + AsRecords(rows[..i])
    {
      sent := sent + [Record(rows[i])];
      assert AsRecords(rows[..i + 1]) == AsRecords(rows[..i]) + [Record(rows[i])];
    }
    assert rows[..|rows|] == rows;
  }

  /** The owner's side of one channel: a count, then that many records. */
  method Receive(channel: seq<Message>) returns (rows: seq<nat>, rest: seq<Message>)
    requires |channel| > 0 && channel[0].Count? && 0 <= channel[0].n < |channel|
    requires forall i :: 1 <= i <= channel[0].n ==> channel[i].Record?
    ensures AsRecords(rows) == channel[1..channel[0].n + 1] && rest == channel[channel[0].n + 1..]
  {
    var recv := channel[0].n;
    rows := [];
    for i := 0 to recv
      invariant AsRecords(rows) == channel[1..i + 1]
    {
      rows := rows + [channel[i + 1].row];
      assert AsRecords(rows) == channel[1..i + 1] + [channel[i + 1]];
    }
    rest := channel[recv + 1..];
  }

  /** Rank `j`'s records of cluster `k`, rank by rank. */
  ghost function AllRecords(ranks: seq<RankState>, k: nat, n: nat): seq<(nat, nat)>
    requires n <= |ranks|
    reads ranks
  {
    if n == 0 then []
    else AllRecords(ranks, k, n - 1) + Tagged(n - 1, Records(ranks[n - 1].labels, k))
  }

  function Tagged(rank: nat, rows: seq<nat>): seq<(nat, nat)> {
    seq(|rows|, i requires 0 <= i < |rows| => (rank, rows[i]))
  }

  /** The counts the ranks announce for cluster `k`. */
  ghost function Announced(ranks: seq<RankState>, k: nat): seq<int>
    requires forall r :: 0 <= r < |ranks| ==> Ready(ranks[r], k)
    reads ranks
  {
    seq(|ranks|, r requires 0 <= r < |ranks| && Ready(ranks[r], k) reads ranks => ranks[r].counts[k])
  }

  lemma {:induction false} AllRecordsCount(ranks: seq<RankState>, k: nat, n: nat)
    requires n <= |ranks|
    requires forall r :: 0 <= r < |ranks| ==> Ready(ranks[r], k)
    ensures |AllRecords(ranks, k, n)| == Q.Sum(Announced(ranks, k)[..n])
  {
    if n > 0 {
      AllRecordsCount(ranks, k, n - 1);
      RecordsCount(ranks[n - 1].labels, ranks[n - 1].C, k);
      assert Announced(ranks, k)[..n][..n - 1] == Announced(ranks, k)[..n - 1];
    }
  }

  /** The owner gets the records of rank `j`: over the channel, or by its own scan. The channel is drained. */
  method Collect(ranks: seq<RankState>, owner: nat, j: nat, k: nat) returns (rows: seq<nat>)
    requires owner < |ranks| && j < |ranks| && Ready(ranks[j], k)
    ensures rows == Records(ranks[j].labels, k)
  {
    if j == owner {
      rows := Scan(ranks[j], k);
    } else {
      var channel := Send(ranks[j], k);
      var rest;
      rows, rest := Receive(channel);
      assert AsRecords(rows) == AsRecords(Records(ranks[j].labels, k));
      assert rest == [];
      SameRows(rows, Records(ranks[j].labels, k));
    }
  }

  /**
    Writing the file of cluster `k` on its owner: the header is the all-reduced count, then come the records
    of rank 0, rank 1, ... . The header counts exactly the records written.
   */
  method WriteCluster(ranks: seq<RankState>, owner: nat, k: nat, global: int)
    returns (header: int, file: seq<(nat, nat)>)
    requires owner < |ranks|
    requires forall r :: 0 <= r < |ranks| ==> Ready(ranks[r], k)
    requires global == Q.Sum(Announced(ranks, k))
    ensures file == AllRecords(ranks, k, |ranks|)
    ensures header == global == |file|
  {
    header := global;
    file := [];
    for j := 0 to |ranks|
      invariant file == AllRecords(ranks, k, j)
    {
      var rows := Collect(ranks, owner, j, k);
      file := file + Tagged(j, rows);
    }
    AllRecordsCount(ranks, k, |ranks|);
    assert Announced(ranks, k)[..|ranks|] == Announced(ranks, k);
  }

  lemma SameRows(a: seq<nat>, b: seq<nat>)
    requires AsRecords(a) == AsRecords(b)
    ensures a == b
  {
    forall i | 0 <= i < |a|
      ensures a[i] == b[i]
    {
      assert AsRecords(a)[i] == AsRecords(b)[i];
    }
  }
}
