/** The candidate query of `recover`: the unconsumed rows ORDER BY code_index, scanned until one verifies. */
module Candidates {
  import opened Types
  import opened Crypto
  import opened Tables

  function InsertByIndex(rows: seq<CodeRow>, r: CodeRow): seq<CodeRow> {
    if rows != [] && rows[0].index <= r.index then [rows[0]] + InsertByIndex(rows[1..], r) else [r] + rows
  }

  /** ORDER BY code_index, rows of equal index in table order */
  function ByIndex(rows: seq<CodeRow>): seq<CodeRow> {
    if rows == [] then [] else InsertByIndex(ByIndex(Front(rows)), Last(rows))
  }

  function Query(codes: seq<CodeRow>, u: UserId): seq<CodeRow> {
    ByIndex(Live(CodesOf(codes, u)))
  }

  function FirstVerifying(rows: seq<CodeRow>, code: string): Option<CodeRow> {
    if rows == [] then None
    else if VerifyBackupCode(code, rows[0].hash) then Some(rows[0])
    else FirstVerifying(rows[1..], code)
  }

  predicate Ascending(rows: seq<CodeRow>) {
    rows == [] || ((forall i :: 0 <= i < |rows| ==> rows[0].index <= rows[i].index) && Ascending(rows[1..]))
  }

  lemma {:induction false} FirstVerifyingIsRow(rows: seq<CodeRow>, code: string)
    ensures FirstVerifying(rows, code).Some? ==> FirstVerifying(rows, code).value in rows
  {
    if rows == [] {
    } else {
      FirstVerifyingIsRow(rows[1..], code);
    }
  }

  lemma {:induction false} InsertMembers(rows: seq<CodeRow>, r: CodeRow)
    ensures forall x :: x in InsertByIndex(rows, r) <==> x in rows || x == r
  {
    if rows != [] && rows[0].index <= r.index {
      InsertMembers(rows[1..], r);
    }
  }

  /** A row inserted in order is found instead of the one found so far exactly when it verifies and has a smaller index. */
  lemma {:induction false} InsertFinds(rows: seq<CodeRow>, r: CodeRow, code: string)
    requires Ascending(rows)
    ensures Ascending(InsertByIndex(rows, r))
    ensures var found := FirstVerifying(rows, code);
            FirstVerifying(InsertByIndex(rows, r), code) ==
            if VerifyBackupCode(code, r.hash) && (found.None? || r.index < found.value.index) then Some(r) else found
  {
    var inserted := InsertByIndex(rows, r);
    if rows != [] && rows[0].index <= r.index {
      InsertFinds(rows[1..], r, code);
      InsertMembers(rows[1..], r);
      assert inserted[1..] == InsertByIndex(rows[1..], r);
      forall i | 0 <= i < |inserted| ensures inserted[0].index <= inserted[i].index {
        assert i > 0 ==> inserted[i] in inserted[1..];
      }
    } else {
      FirstVerifyingIsRow(rows, code);
      assert inserted[1..] == rows;
    }
  }

  /** The first row of the ordered query that verifies is the one `FirstMatch` names in the table. */
  lemma {:induction false} QueryFinds(mine: seq<CodeRow>, code: string)
    ensures Ascending(ByIndex(Live(mine)))
    ensures var p := FirstMatch(mine, code);
            FirstVerifying(ByIndex(Live(mine)), code) == if p.Some? then Some(mine[p.value]) else None
  {
    if mine == [] {
    } else {
      var (front, x) := (Front(mine), Last(mine));
      QueryFinds(front, code);
      if !x.consumed {
        assert Front(Live(mine)) == Live(front);
        InsertFinds(ByIndex(Live(front)), x, code);
      }
    }
  }
}
