/** The "SQL Command" action: after the inputs are processed and the driver
    has run the command, a precedence cascade turns the raw artifacts (the
    console text, the rows and the update count) into an output text and a
    return result, and every failure is classified into the result map.

    The input processor called first inside the try block and the driver
    call are not modelled: their outcomes (the processed inputs, or the
    exception they raised; the artifacts, or the exception the driver
    raised) are parameters. The statements before the try block are taken
    to complete normally. */
module SqlCommand {
  import opened JavaStrings

  // ----- Constants -----

  /** DBDefaultValues.ORACLE_DB_TYPE. */
  const ORACLE_DB_TYPE: string := "Oracle"
  /** DBOtherValues.SET_NOCOUNT_ON, the Transact-SQL row-count suppression
      directive, searched for in the upper-cased command. */
  const SET_NOCOUNT_ON: string := "SET NOCOUNT ON"
  /** ReturnCodes.SUCCESS and ReturnCodes.FAILURE. */
  const SUCCESS: string := "0"
  const FAILURE: string := "-1"

  /** The Oracle procedural-output package, searched for in the lower-cased
      command. */
  const DBMS_OUTPUT: string := "dbms_output"
  const COMMAND_COMPLETED: string := "Command completed successfully"
  const ROWS_AFFECTED: string := " row(s) affected"
  const NO_RESULTS: string := "The command has no results!"
  const EMPTY_COMMAND: string := "command input is empty."

  /** The update count the driver reports when there is no count. */
  const NO_COUNT: int := -1

  /** A Java int. */
  type Int32 = x: int | -0x8000_0000 <= x < 0x8000_0000

  /** The keys of the result map: "updateCount", Constants.RETURNRESULT,
      Constants.OUTPUTTEXT, OutputNames.RETURN_CODE and
      OutputNames.EXCEPTION, which are distinct names. */
  datatype OutputKey = UpdateCount | ReturnResult | OutputText | ReturnCode | Exception

  type Result = map<OutputKey, string>

  /** The fields of the processed inputs that the cascade reads. */
  datatype SqlInputs = SqlInputs(dbType: Option<string>, sqlCommand: Option<string>)

  /** What the driver call leaves behind: the returned text (the Oracle
      console buffer, or the empty string), the rendered rows and the update
      count. */
  datatype Execution = Execution(res: string, rows: seq<string>, updateCount: Int32)

  /** An exception reaching the catch block: a java.sql.SQLException, already
      rendered by SQLUtils.toString, or any other exception's message. */
  datatype Thrown = SqlException(rendered: string) | OtherException(message: string)

  /** A step that returns a value or throws. */
  datatype Attempt<T> = Returned(value: T) | Raised(thrown: Thrown)

  // ----- The output-text cascade -----

  /** The four ways the output text is produced. */
  datatype Branch = DbmsOutput | RowsAffected | NoResults | RowListing

  /** An Oracle command that writes to the procedural console: the vendor
      lower-cases to the Oracle name and "dbms_output" occurs somewhere in
      the lower-cased command. */
  predicate IsDbmsOutputCall(dbType: Option<string>, command: string): (b: bool)
    ensures b <==>
      dbType.Some? && ToLower(dbType.value) == ToLower(ORACLE_DB_TYPE) &&
      exists i :: OccursAt(ToLower(command), DBMS_OUTPUT, i)
  {
    ContainsIff(ToLower(command), DBMS_OUTPUT);
    if dbType.None? then false
    else
      EqualsIgnoreCaseIff(ORACLE_DB_TYPE, dbType.value);
      EqualsIgnoreCase(ORACLE_DB_TYPE, dbType.value) &&
      Contains(ToLower(command), DBMS_OUTPUT)
  }

  /** The branch the if / else-if chain takes. Each branch is characterised
      by its own condition, independent of the order of the chain: the
      Oracle console case wins whatever the rows and the count, the two
      "no rows" branches split on the count, and the last branch runs only
      when there are rows. */
  function SelectBranch(dbType: Option<string>, command: string, rows: seq<string>, updateCount: int): (b: Branch)
    ensures b == DbmsOutput <==> IsDbmsOutputCall(dbType, command)
    ensures b == RowsAffected <==> !IsDbmsOutputCall(dbType, command) && rows == [] && updateCount != NO_COUNT
    ensures b == NoResults <==> !IsDbmsOutputCall(dbType, command) && rows == [] && updateCount == NO_COUNT
    ensures b == RowListing <==> !IsDbmsOutputCall(dbType, command) && rows != []
  {
    if IsDbmsOutputCall(dbType, command) then DbmsOutput
    else if |rows| == 0 && updateCount != NO_COUNT then RowsAffected
    else if |rows| == 0 && updateCount == NO_COUNT then NoResults
    else RowListing
  }

  /** Every row in order, each followed by a line feed: the text is empty
      exactly when there are no rows, and otherwise ends in a line feed. */
  function RenderRows(rows: seq<string>): (r: string)
    ensures r == "" <==> rows == []
    ensures rows != [] ==> r[|r| - 1] == '\n'
  {
    if rows == [] then "" else rows[0] + "\n" + RenderRows(rows[1..])
  }

  /** The return result and the output text of a successful run. */
  datatype Formatted = Formatted(returnResult: string, outputText: string)

  /** The return result and output text the cascade produces. The return
      result is the driver's text except in the Oracle console case, where
      the console text moves to the output text. */
  function Format(dbType: Option<string>, command: string, e: Execution): (r: Formatted)
    ensures r.returnResult == if IsDbmsOutputCall(dbType, command) then COMMAND_COMPLETED else e.res
    ensures IsDbmsOutputCall(dbType, command) ==> r.outputText == e.res
  {
    match SelectBranch(dbType, command, e.rows, e.updateCount)
    case DbmsOutput =>
      Formatted(COMMAND_COMPLETED, if !EqualsIgnoreCase("", e.res) then e.res else "")
    case RowsAffected =>
      Formatted(e.res, IntToDecimal(e.updateCount) + ROWS_AFFECTED)
    case NoResults =>
      Formatted(e.res, if Contains(ToUpper(command), SET_NOCOUNT_ON) then e.res else NO_RESULTS)
    case RowListing =>
      Formatted(e.res, RenderRows(e.rows))
  }

  /** The result map of a failure: a SQLException fills only EXCEPTION, any
      other exception only RETURNRESULT. */
  function FailureResult(t: Thrown): (r: Result)
    ensures ReturnCode in r && r[ReturnCode] == FAILURE
    ensures r.Keys == if t.SqlException? then {Exception, ReturnCode} else {ReturnResult, ReturnCode}
    ensures t.SqlException? ==> r[Exception] == t.rendered
    ensures t.OtherException? ==> r[ReturnResult] == t.message
  {
    match t
    case SqlException(rendered) => map[Exception := rendered, ReturnCode := FAILURE]
    case OtherException(message) => map[ReturnResult := message, ReturnCode := FAILURE]
  }

  /** The result map of SQLCommand.execute, given what the input processor
      and the driver call did. The driver outcome is consulted only once the
      command has passed the empty-command guard. */
  function Outcome(prepared: Attempt<SqlInputs>, service: Attempt<Execution>): (r: Result)
    ensures ReturnCode in r
    ensures r[ReturnCode] == SUCCESS <==> UpdateCount in r
    ensures OutputText in r <==> UpdateCount in r
    ensures Exception in r ==> ReturnResult !in r
  {
    match prepared
    case Raised(t) => FailureResult(t)
    case Returned(inputs) =>
      if IsEmpty(inputs.sqlCommand) then FailureResult(OtherException(EMPTY_COMMAND))
      else
        match service
        case Raised(t) => FailureResult(t)
        case Returned(e) =>
          var f := Format(inputs.dbType, inputs.sqlCommand.value, e);
          map[UpdateCount := IntToDecimal(e.updateCount), ReturnResult := f.returnResult,
              OutputText := f.outputText, ReturnCode := SUCCESS]
  }

  // ----- The action, step by step -----

  /** The for loop of the last branch: appends each row and a line feed to
      the text so far, in order. */
  method AppendRows(text: string, rows: seq<string>) returns (outputText: string)
    ensures outputText == text + RenderRows(rows)
  {
    outputText := text;
    var i := 0;
    while i < |rows|
      invariant 0 <= i <= |rows|
      invariant outputText == text + RenderRows(rows[..i])
    {
      var line := rows[i] + "\n";
      assert RenderRows([rows[i]]) == line by {
        assert [rows[i]][1..] == [];
      }
      RenderRowsAppend(rows[..i], [rows[i]]);
      assert rows[..i + 1] == rows[..i] + [rows[i]];
      assert outputText + line == text + (RenderRows(rows[..i]) + line);
      outputText := outputText + line;
      i := i + 1;
    }
    assert rows[..i] == rows;
  }

  /** The if / else-if chain of SQLCommand.execute: it yields the return
      result and the output text that `Format` specifies. */
  method Cascade(dbType: Option<string>, command: string, e: Execution)
    returns (res: string, outputText: string)
    ensures Formatted(res, outputText) == Format(dbType, command, e)
  {
    var rows, updateCount := e.rows, e.updateCount;
    res := e.res;
    outputText := "";
    if IsDbmsOutputCall(dbType, command) {
      if !EqualsIgnoreCase("", res) {
        outputText := res;
      }
      res := COMMAND_COMPLETED;
    } else if |rows| == 0 && updateCount != NO_COUNT {
      assert SelectBranch(dbType, command, rows, updateCount) == RowsAffected;
      outputText := outputText + (IntToDecimal(updateCount) + ROWS_AFFECTED);
      assert outputText == IntToDecimal(updateCount) + ROWS_AFFECTED;
    } else if |rows| == 0 && updateCount == NO_COUNT {
      assert SelectBranch(dbType, command, rows, updateCount) == NoResults;
      outputText := NO_RESULTS;
      if Contains(ToUpper(command), SET_NOCOUNT_ON) {
        outputText := res;
      }
    } else {
      assert SelectBranch(dbType, command, rows, updateCount) == RowListing;
      outputText := AppendRows(outputText, rows);
      assert outputText == RenderRows(rows);
    }
  }

  /** SQLCommand.execute from the processed inputs on: the guard, the
      cascade with its row loop, the puts into the result map and the catch
      block. */
  method Execute(prepared: Attempt<SqlInputs>, service: Attempt<Execution>) returns (result: Result)
    ensures result == Outcome(prepared, service)
  {
    result := map[];
    var failure: Option<Thrown> := None;
    if prepared.Raised? {
      failure := Some(prepared.thrown);
    } else if IsEmpty(prepared.value.sqlCommand) {
      failure := Some(OtherException(EMPTY_COMMAND));
    } else if service.Raised? {
      failure := Some(service.thrown);
    } else {
      var dbType, command := prepared.value.dbType, prepared.value.sqlCommand.value;
      var res, outputText := Cascade(dbType, command, service.value);
      var updateCount := service.value.updateCount;
      result := result[UpdateCount := IntToDecimal(updateCount)];
      result := result[ReturnResult := res];
      result := result[OutputText := outputText];
      result := result[ReturnCode := SUCCESS];
    }
    if failure.Some? {
      match failure.value {
        case SqlException(rendered) =>
          result := result[Exception := rendered];
        case OtherException(message) =>
          result := result[ReturnResult := message];
      }
      result := result[ReturnCode := FAILURE];
    }
  }

  // ----- Properties of the rendered rows -----

  /** Rendering distributes over concatenation of row lists. */
  lemma {:induction false} RenderRowsAppend(a: seq<string>, b: seq<string>)
    ensures RenderRows(a + b) == RenderRows(a) + RenderRows(b)
  {
    if a == [] {
      assert a + b == b;
    } else {
      assert (a + b)[1..] == a[1..] + b;
      RenderRowsAppend(a[1..], b);
    }
  }

  /** The total length of the rows. */
  function SumLengths(rows: seq<string>): nat
  {
    if rows == [] then 0 else |rows[0]| + SumLengths(rows[1..])
  }

  /** The text is as long as the rows together plus one line feed each. */
  lemma {:induction false} RenderRowsLength(rows: seq<string>)
    ensures |RenderRows(rows)| == SumLengths(rows) + |rows|
  {
    if rows != [] {
      RenderRowsLength(rows[1..]);
    }
  }

  /** A row is a single line: it holds no line feed. */
  predicate SingleLine(row: string)
  {
    forall i :: 0 <= i < |row| ==> row[i] != '\n'
  }

  /** The length of the first line of s, up to its first line feed. */
  function LineEnd(s: string): (k: nat)
    ensures k <= |s|
    ensures forall i :: 0 <= i < k ==> s[i] != '\n'
    ensures k < |s| ==> s[k] == '\n'
  {
    if s == [] || s[0] == '\n' then 0 else 1 + LineEnd(s[1..])
  }

  /** Splits text into the lines that each end in a line feed (a last line
      without one is kept as well). */
  function SplitLines(s: string): seq<string>
    decreases |s|
  {
    if s == [] then []
    else
      var k := LineEnd(s);
      if k == |s| then [s] else [s[..k]] + SplitLines(s[k + 1..])
  }

  /** Rows that are single lines can be read back from the output text, in
      their original order. */
  lemma {:induction false} SplitRenderedRows(rows: seq<string>)
    requires forall j :: 0 <= j < |rows| ==> SingleLine(rows[j])
    ensures SplitLines(RenderRows(rows)) == rows
  {
    if rows != [] {
      var row, k := rows[0], |rows[0]|;
      var rest := RenderRows(rows[1..]);
      var s := row + "\n" + rest;
      assert RenderRows(rows) == s;
      assert LineEnd(s) == k by {
        assert SingleLine(row);
        assert forall i :: 0 <= i < k ==> s[i] == row[i];
        assert s[k] == '\n';
      }
      assert s[..k] == row;
      assert s[k + 1..] == rest;
      assert SplitLines(s) == [row] + SplitLines(rest);
      SplitRenderedRows(rows[1..]);
    }
  }

  // ----- Properties of the cascade -----

  /** The Oracle console case: the return result is the fixed completion
      message and the output text is the console text, whatever the rows
      and the update count. */
  lemma DbmsOutputCase(dbType: Option<string>, command: string, e: Execution)
    requires IsDbmsOutputCall(dbType, command)
    ensures Format(dbType, command, e) == Formatted(COMMAND_COMPLETED, e.res)
  {
  }

  /** The console case is recognised in any case of the package name and
      of the vendor name. */
  lemma DbmsOutputCaseInsensitive(dbType: string, command: string, i: nat)
    requires EqualsIgnoreCase(dbType, ORACLE_DB_TYPE)
    requires i + |DBMS_OUTPUT| <= |command| && ToLower(command[i..i + |DBMS_OUTPUT|]) == DBMS_OUTPUT
    ensures IsDbmsOutputCall(Some(dbType), command)
  {
    EqualsIgnoreCaseIff(ORACLE_DB_TYPE, dbType);
    EqualsIgnoreCaseIff(dbType, ORACLE_DB_TYPE);
    var lower := ToLower(command);
    assert lower[i..i + |DBMS_OUTPUT|] == ToLower(command[i..i + |DBMS_OUTPUT|]);
    assert OccursAt(lower, DBMS_OUTPUT, i);
    ContainsIff(lower, DBMS_OUTPUT);
  }

  /** A count with no rows, 0 included, is reported as the count followed
      by " row(s) affected". The numeral is in String.valueOf's canonical
      form (no leading zero, a sign only for negative counts) and reads
      back as the count, which together determine it. */
  lemma RowsAffectedCase(dbType: Option<string>, command: string, e: Execution)
    requires !IsDbmsOutputCall(dbType, command) && e.rows == [] && e.updateCount != NO_COUNT
    ensures var t := Format(dbType, command, e).outputText;
      |t| > |ROWS_AFFECTED| &&
      t[|t| - |ROWS_AFFECTED|..] == ROWS_AFFECTED &&
      IsCanonicalDecimal(t[..|t| - |ROWS_AFFECTED|]) &&
      ParseDecimal(t[..|t| - |ROWS_AFFECTED|]) == Some(e.updateCount as int)
    ensures Format(dbType, command, e).returnResult == e.res
  {
    var t := Format(dbType, command, e).outputText;
    var n := IntToDecimal(e.updateCount);
    IntToDecimalRoundTrip(e.updateCount);
    IntToDecimalCanonical(e.updateCount);
    assert |n| > 0;
    assert t == n + ROWS_AFFECTED;
    assert t[..|t| - |ROWS_AFFECTED|] == n;
    assert t[|t| - |ROWS_AFFECTED|..] == ROWS_AFFECTED;
  }

  /** No rows and no count: "The command has no results!", unless the
      upper-cased command holds SET NOCOUNT ON, in which case the returned
      text itself. */
  lemma NoResultsCase(dbType: Option<string>, command: string, e: Execution)
    requires !IsDbmsOutputCall(dbType, command) && e.rows == [] && e.updateCount == NO_COUNT
    ensures Format(dbType, command, e).outputText ==
      if exists i :: OccursAt(ToUpper(command), SET_NOCOUNT_ON, i) then e.res else NO_RESULTS
    ensures Format(dbType, command, e).returnResult == e.res
  {
    ContainsIff(ToUpper(command), SET_NOCOUNT_ON);
  }

  /** The directive is spelled in upper case, so searching the upper-cased
      command for it finds it in any letter case. */
  lemma SetNocountOnIsUpperCase()
    ensures ToUpper(SET_NOCOUNT_ON) == SET_NOCOUNT_ON
  {
    assert forall i :: 0 <= i < |SET_NOCOUNT_ON| ==> !IsLowerAscii(SET_NOCOUNT_ON[i]);
  }

  /** No rows and no count: a SET NOCOUNT ON directive written in any letter
      case (for example "set nocount on") selects the returned text. */
  lemma NoCountDirectiveAnyCase(dbType: Option<string>, command: string, e: Execution, i: nat)
    requires !IsDbmsOutputCall(dbType, command) && e.rows == [] && e.updateCount == NO_COUNT
    requires i + |SET_NOCOUNT_ON| <= |command|
    requires EqualsIgnoreCase(command[i..i + |SET_NOCOUNT_ON|], SET_NOCOUNT_ON)
    ensures Format(dbType, command, e).outputText == e.res
  {
    var n := |SET_NOCOUNT_ON|;
    var upper := ToUpper(command);
    EqualsIgnoreCaseIff(command[i..i + n], SET_NOCOUNT_ON);
    SetNocountOnIsUpperCase();
    assert upper[i..i + n] == ToUpper(command[i..i + n]);
    assert OccursAt(upper, SET_NOCOUNT_ON, i);
    ContainsIff(upper, SET_NOCOUNT_ON);
  }

  /** With rows present and no console case, the output text lists every
      row in order, one per line: it is as long as the rows plus one line
      feed each, and single-line rows can be read back from it. */
  lemma RowListingCase(dbType: Option<string>, command: string, e: Execution)
    requires !IsDbmsOutputCall(dbType, command) && e.rows != []
    ensures Format(dbType, command, e).outputText == RenderRows(e.rows)
    ensures |Format(dbType, command, e).outputText| == SumLengths(e.rows) + |e.rows|
    ensures (forall j :: 0 <= j < |e.rows| ==> SingleLine(e.rows[j])) ==>
      SplitLines(Format(dbType, command, e).outputText) == e.rows
    ensures Format(dbType, command, e).returnResult == e.res
  {
    RenderRowsLength(e.rows);
    if forall j :: 0 <= j < |e.rows| ==> SingleLine(e.rows[j]) {
      SplitRenderedRows(e.rows);
    }
  }

  // ----- Properties of the result map -----

  /** The run succeeds exactly when the inputs were processed, the command
      is not empty and the driver did not throw; the return code is always
      SUCCESS or FAILURE. */
  lemma SucceedsIff(prepared: Attempt<SqlInputs>, service: Attempt<Execution>)
    ensures ReturnCode in Outcome(prepared, service)
    ensures Outcome(prepared, service)[ReturnCode] in {SUCCESS, FAILURE}
    ensures Outcome(prepared, service)[ReturnCode] == SUCCESS <==>
      prepared.Returned? && !IsEmpty(prepared.value.sqlCommand) && service.Returned?
  {
  }

  /** On success the map holds exactly the update count, the return result,
      the output text and SUCCESS; the update count reads back as the
      driver's count, written in String.valueOf's canonical form. */
  lemma SuccessResult(inputs: SqlInputs, e: Execution)
    requires !IsEmpty(inputs.sqlCommand)
    ensures var r := Outcome(Returned(inputs), Returned(e));
      var f := Format(inputs.dbType, inputs.sqlCommand.value, e);
      r.Keys == {UpdateCount, ReturnResult, OutputText, ReturnCode} &&
      IsCanonicalDecimal(r[UpdateCount]) &&
      ParseDecimal(r[UpdateCount]) == Some(e.updateCount as int) &&
      r[ReturnResult] == f.returnResult && r[OutputText] == f.outputText &&
      r[ReturnCode] == SUCCESS
  {
    IntToDecimalRoundTrip(e.updateCount);
    IntToDecimalCanonical(e.updateCount);
  }

  /** A null or empty command fails before the driver is called: the result
      does not depend on the driver's outcome, and holds only FAILURE and
      the "command input is empty." message. */
  lemma EmptyCommandFailsFast(inputs: SqlInputs, s1: Attempt<Execution>, s2: Attempt<Execution>)
    requires IsEmpty(inputs.sqlCommand)
    ensures Outcome(Returned(inputs), s1) == Outcome(Returned(inputs), s2)
    ensures Outcome(Returned(inputs), s1) == map[ReturnResult := EMPTY_COMMAND, ReturnCode := FAILURE]
  {
  }

  /** The guard is isEmpty, not isBlank: a whitespace-only command reaches
      the driver, and succeeds when the driver does. */
  lemma WhitespaceCommandReachesDriver(dbType: Option<string>, command: string, e: Execution)
    requires command != "" && IsBlank(Some(command))
    ensures Outcome(Returned(SqlInputs(dbType, Some(command))), Returned(e))[ReturnCode] == SUCCESS
  {
  }

  /** Every failure sets FAILURE and exactly one diagnostic, never both:
      EXCEPTION holds the rendered SQLException of whichever step threw it;
      RETURNRESULT holds any other exception's message, which for the
      empty-command guard is "command input is empty.". */
  lemma FailureClassification(prepared: Attempt<SqlInputs>, service: Attempt<Execution>)
    requires Outcome(prepared, service)[ReturnCode] == FAILURE
    ensures var r := Outcome(prepared, service);
      r.Keys == {Exception, ReturnCode} || r.Keys == {ReturnResult, ReturnCode}
    ensures var r := Outcome(prepared, service);
      Exception in r <==>
        (prepared.Raised? && prepared.thrown.SqlException?) ||
        (prepared.Returned? && !IsEmpty(prepared.value.sqlCommand) &&
         service.Raised? && service.thrown.SqlException?)
    ensures prepared.Raised? && prepared.thrown.SqlException? ==>
      Outcome(prepared, service)[Exception] == prepared.thrown.rendered
    ensures prepared.Raised? && prepared.thrown.OtherException? ==>
      Outcome(prepared, service)[ReturnResult] == prepared.thrown.message
    ensures prepared.Returned? && IsEmpty(prepared.value.sqlCommand) ==>
      Outcome(prepared, service)[ReturnResult] == EMPTY_COMMAND
    ensures prepared.Returned? && !IsEmpty(prepared.value.sqlCommand) &&
            service.Raised? && service.thrown.SqlException? ==>
      Outcome(prepared, service)[Exception] == service.thrown.rendered
    ensures prepared.Returned? && !IsEmpty(prepared.value.sqlCommand) &&
            service.Raised? && service.thrown.OtherException? ==>
      Outcome(prepared, service)[ReturnResult] == service.thrown.message
  {
  }
}
