/** Fixed tables of C strings: 100 rows of 255 characters, laid out one after the other. */
module StringTables {
  import opened Common

  const ROWS: nat := 100
  const WIDTH: nat := 255
  const CELLS: nat := 25500

  /** A row read as a C string. */
  function Row(cells: seq<char>, i: nat): string
    requires |cells| == CELLS && i < ROWS
  {
    CString(cells[WIDTH * i..WIDTH * i + WIDTH], '\0')
  }

  function Rows(cells: seq<char>): (rows: seq<string>)
    requires |cells| == CELLS
    ensures |rows| == ROWS
    ensures forall i :: 0 <= i < ROWS ==> rows[i] == Row(cells, i)
  {
    seq(ROWS, i requires 0 <= i < ROWS => Row(cells, i))
  }

  /** A string that fits a row with its terminator. */
  predicate FitsRow(value: string) {
    |value| < WIDTH && '\0' !in value
  }

  predicate FitTable(values: seq<string>) {
    |values| <= ROWS && forall i :: 0 <= i < |values| ==> FitsRow(values[i])
  }

  /** The table is 100 rows of 255 characters, and what fits is a string shorter than a row. */
  lemma TableShape(cells: seq<char>, values: seq<string>)
    requires |cells| == 25_500
    ensures |Rows(cells)| == 100
    ensures forall i :: 0 <= i < 100 ==> Rows(cells)[i] == CString(cells[255 * i..255 * i + 255], '\0')
    ensures FitTable(values) <==>
              |values| <= 100 && forall i :: 0 <= i < |values| ==> |values[i]| < 255 && '\0' !in values[i]
  {
    hide CString;
    assert forall i :: 0 <= i < 100 ==> Rows(cells)[i] == Row(cells, i);
    assert forall i :: 0 <= i < |values| ==> (FitsRow(values[i]) <==> |values[i]| < 255 && '\0' !in values[i]);
  }

  /** Copies a string and its terminator into a row; the rest of the row keeps what it had. */
  method CopyString(table: array<char>, i: nat, value: string)
    requires table.Length == CELLS && i < ROWS && FitsRow(value)
    modifies table
    ensures Rows(table[..]) == old(Rows(table[..]))[i := value]
  {
    var start := WIDTH * i;
    for k := 0 to |value|
      invariant forall c :: 0 <= c < k ==> table[start + c] == value[c]
      invariant forall c :: 0 <= c < CELLS && !(start <= c < start + k) ==> table[c] == old(table[c])
    {
      table[start + k] := value[k];
    }
    table[start + |value|] := '\0';
    CopiedRow(old(table[..]), table[..], i, value);
  }

  lemma CopiedRow(before: seq<char>, after: seq<char>, i: nat, value: string)
    requires |before| == |after| == CELLS && i < ROWS && FitsRow(value)
    requires forall c :: 0 <= c < |value| ==> after[WIDTH * i + c] == value[c]
    requires after[WIDTH * i + |value|] == '\0'
    requires forall c :: 0 <= c < CELLS && !(WIDTH * i <= c < WIDTH * i + WIDTH) ==> after[c] == before[c]
    ensures Rows(after) == Rows(before)[i := value]
  {
    hide Row;
    WrittenRow(after, i, value);
    forall j: nat | j < ROWS && j != i
      ensures Row(after, j) == Row(before, j)
    {
      SameRow(before, after, i, j);
    }
  }

  lemma WrittenRow(cells: seq<char>, i: nat, value: string)
    requires |cells| == CELLS && i < ROWS && FitsRow(value)
    requires forall c :: 0 <= c < |value| ==> cells[WIDTH * i + c] == value[c]
    requires cells[WIDTH * i + |value|] == '\0'
    ensures Row(cells, i) == value
  {
    var row := cells[WIDTH * i..WIDTH * i + WIDTH];
    CStringOfCopy(value, '\0', row[|value| + 1..]);
    assert row[..|value|] == value && row[|value|] == '\0';
    assert row == value + ['\0'] + row[|value| + 1..];
  }

  lemma SameRow(before: seq<char>, after: seq<char>, i: nat, j: nat)
    requires |before| == |after| == CELLS && i < ROWS && j < ROWS && i != j
    requires forall c :: 0 <= c < CELLS && !(WIDTH * i <= c < WIDTH * i + WIDTH) ==> after[c] == before[c]
    ensures Row(after, j) == Row(before, j)
  {
    var low := WIDTH * j;
    forall c | low <= c < low + WIDTH
      ensures after[c] == before[c]
    {
    }
    assert after[low..low + WIDTH] == before[low..low + WIDTH];
  }

  function EmptyRows(): (rows: seq<string>)
    ensures |rows| == ROWS && forall i :: 0 <= i < ROWS ==> rows[i] == ""
  {
    seq(ROWS, _ => "")
  }

  /** Zeroes every cell, after which every row reads as the empty string. */
  method Clear(table: array<char>)
    requires table.Length == CELLS
    modifies table
    ensures Rows(table[..]) == EmptyRows()
  {
    for k := 0 to CELLS
      invariant forall j :: 0 <= j < k ==> table[j] == '\0'
    {
      table[k] := '\0';
    }
    forall i: nat | i < ROWS
      ensures Row(table[..], i) == ""
    {
      assert table[..][WIDTH * i..WIDTH * i + WIDTH][0] == '\0';
    }
  }

  // -------------------------------------------------- history of requests

  /** The table after the values of one request have been copied into its first rows. */
  function Stored(rows: seq<string>, values: seq<string>): (r: seq<string>)
    requires |values| <= |rows|
    ensures |r| == |rows|
  {
    values + rows[|values|..]
  }

  function StoredAll(requests: seq<seq<string>>): (rows: seq<string>)
    requires forall k :: 0 <= k < |requests| ==> FitTable(requests[k])
    ensures |rows| == ROWS
    decreases |requests|
  {
    if requests == [] then EmptyRows()
    else
      assert FitTable(requests[|requests| - 1]);
      Stored(StoredAll(requests[..|requests| - 1]), requests[|requests| - 1])
  }

  /** Request `k` is the latest with more than `i` values. */
  ghost predicate LatestReaching(requests: seq<seq<string>>, i: nat, k: int) {
    && 0 <= k < |requests| && i < |requests[k]|
    && forall j :: k < j < |requests| ==> |requests[j]| <= i
  }

  /**
   * The history of the request table: after any run of requests a row reads as the value of
   * the latest request that reached that row, and as empty if none ever did.
   */
  lemma {:induction false} TableHistory(requests: seq<seq<string>>, i: nat)
    requires forall k :: 0 <= k < |requests| ==> FitTable(requests[k])
    requires i < ROWS
    ensures forall k :: LatestReaching(requests, i, k) ==> StoredAll(requests)[i] == requests[k][i]
    ensures (forall k :: 0 <= k < |requests| ==> |requests[k]| <= i) ==> StoredAll(requests)[i] == ""
    decreases |requests|
  {
    if requests == [] {
    } else {
      var before, last := requests[..|requests| - 1], requests[|requests| - 1];
      TableHistory(before, i);
      assert FitTable(last);
      assert StoredAll(requests) == Stored(StoredAll(before), last);
      hide StoredAll, FitTable;
      forall k | LatestReaching(requests, i, k)
        ensures StoredAll(requests)[i] == requests[k][i]
      {
        if k < |before| {
          assert LatestReaching(before, i, k);
          assert |requests[|requests| - 1]| <= i;
        }
      }
    }
  }
}
