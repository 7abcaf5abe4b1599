# SQL Command outcome shaping and AWS enum normalisers, in Dafny

This project models two pieces of sequential logic from the CloudSlang
content actions.

- **SQL Command** (`SQLCommand.execute`). After the inputs are processed and
  the JDBC driver has run the command, the action builds its result map:
  - an empty-command guard;
  - a four-way precedence cascade that derives the output text and the
    return result from the driver's artifacts. The artifacts are the returned
    text `res`, the rendered rows and the update count, where `-1` means "no
    count";
  - the puts into the result map;
  - the catch block, which tells a `SQLException` apart from any other
    failure.

  Module `SqlCommand` (`sql_command.dfy`) holds two things. `Outcome` is the
  specification function. `Execute` is the imperative version: the same
  branches (in `Cascade`), the `for` loop that appends each row and a line
  feed (in `AppendRows`), and the result map filled put by put. `Execute` is
  proved equal to `Outcome`, and lemmas state what `Outcome` means.
- **AWS enum normalisers** (`NetworkInterfaceStatus.getValue`,
  `ImageState.getValue`, `Hypervisor.getValue`). A blank input gives
  `NOT_RELEVANT`. An input that matches a member ignoring case gives the
  member's canonical lower-case token. Anything else is an error whose
  message embeds the input in brackets. There is one module per enum, plus
  `AwsLookup` for the shared result type.

`JavaStrings` (`java_strings.dfy`) models the string operations these rely
on:
- null-able strings;
- ASCII `toLowerCase`/`toUpperCase` and `equalsIgnoreCase`;
- `StringUtils.isBlank`/`isEmpty`;
- `String.contains`;
- `String.valueOf(int)`, with a decimal parser that inverts it.

The input processor (`InputsProcessor.handleInputParameters`, the first call
inside the `try`) and the driver call are not modelled. Their outcomes are
parameters of type `Attempt<T>`: a returned value, or the exception thrown.
The input-gathering statements before the `try` are assumed to complete
normally (see "## Left out").
The constants whose definitions live in other files are given their
upstream values:
- `ORACLE_DB_TYPE` = `"Oracle"`;
- `SET_NOCOUNT_ON` = `"SET NOCOUNT ON"`;
- `SUCCESS` = `"0"` and `FAILURE` = `"-1"`;
- `NOT_RELEVANT` = `"Not relevant"`.

Some lemmas rely on these spellings:
- `SUCCESS` and `FAILURE` differ, so the return code tells success from
  failure.
- `SET_NOCOUNT_ON` is upper case (`SetNocountOnIsUpperCase`). The command is
  upper-cased before the search, so the directive is found in any letter
  case. With a lower-case constant the branch could never be taken.
- `DbmsOutputCaseInsensitive` is stated against `ORACLE_DB_TYPE` itself, so
  it holds whatever the vendor name is spelled as.

The five output-map keys are a closed datatype `OutputKey`, so they are
distinct by construction.

Two facts about the code are worth stating:
- The empty-command guard is `StringUtils.isEmpty`, so a whitespace-only
  command is not rejected and reaches the driver
  (`WhitespaceCommandReachesDriver`).
- The catch block tells only a `SQLException`, which fills `EXCEPTION`, from
  any other exception, which fills `RETURNRESULT`. The empty-command failure
  is of the second kind.

## Model

| member | source | states |
|---|---|---|
| `SqlCommand.IsDbmsOutputCall` | cs-database/src/main/java/io/cloudslang/content/database/actions/SQLCommand.java:128-129 | the console condition: the vendor is present and lower-cases to the Oracle name, and "dbms_output" occurs at some position of the lower-cased command |
| `SqlCommand.SelectBranch` | cs-database/src/main/java/io/cloudslang/content/database/actions/SQLCommand.java:128-147 | each of the four branches is taken exactly when its own condition holds: the Oracle `dbms_output` case whatever the rows and count; no rows and a count other than -1; no rows and count -1; rows present (so the final else runs only with rows) |
| `SqlCommand.Format` | cs-database/src/main/java/io/cloudslang/content/database/actions/SQLCommand.java:126-147 | the return result is the driver's text, except in the Oracle console case, where it is "Command completed successfully" and the output text is the driver's text; the other branches are characterised by `DbmsOutputCase`, `RowsAffectedCase`, `NoResultsCase`, `NoCountDirectiveAnyCase` and `RowListingCase` |
| `SqlCommand.FailureResult` | cs-database/src/main/java/io/cloudslang/content/database/actions/SQLCommand.java:153-160 | a failure map has RETURN_CODE = FAILURE plus exactly one diagnostic: EXCEPTION holding the rendered SQLException, or RETURNRESULT holding any other exception's message |
| `SqlCommand.Outcome` | cs-database/src/main/java/io/cloudslang/content/database/actions/SQLCommand.java:117-162 | a return code is always set; the map carries updateCount and OUTPUTTEXT exactly when it reports SUCCESS; EXCEPTION and RETURNRESULT never appear together; the full characterisation is in `SucceedsIff`, `SuccessResult`, `EmptyCommandFailsFast` and `FailureClassification` |
| `SqlCommand.Cascade` | cs-database/src/main/java/io/cloudslang/content/database/actions/SQLCommand.java:126-147 | the step-by-step if / else-if chain, starting from an empty output text, yields exactly the return result and output text that `Format` specifies |
| `SqlCommand.AppendRows` | cs-database/src/main/java/io/cloudslang/content/database/actions/SQLCommand.java:144-146 | the loop that appends each row and a line feed leaves the earlier text followed by every row in order, each with its line feed |
| `SqlCommand.Execute` | cs-database/src/main/java/io/cloudslang/content/database/actions/SQLCommand.java:117-162 | the step-by-step action (guard, `Cascade`, puts, catch block) produces exactly the result map `Outcome` specifies |
| `SqlCommand.DbmsOutputCase` | cs-database/src/main/java/io/cloudslang/content/database/actions/SQLCommand.java:128-133 | Oracle with `dbms_output` in the command: return result "Command completed successfully", output text the original `res` (empty when `res` is empty), for any rows and update count |
| `SqlCommand.DbmsOutputCaseInsensitive` | cs-database/src/main/java/io/cloudslang/content/database/actions/SQLCommand.java:128-129 | a vendor equal to ORACLE_DB_TYPE ignoring case, with `dbms_output` in any letter case anywhere in the command, selects the console case |
| `SqlCommand.RowsAffectedCase` | cs-database/src/main/java/io/cloudslang/content/database/actions/SQLCommand.java:134-137 | no rows and a count other than -1 (0 included): the output text is a numeral followed by " row(s) affected"; the numeral is in String.valueOf's canonical form (no leading zero, a sign only when negative) and parses back to the count; the return result is `res` |
| `SqlCommand.NoResultsCase` | cs-database/src/main/java/io/cloudslang/content/database/actions/SQLCommand.java:138-142 | no rows and count -1: the output text is `res` if SET NOCOUNT ON occurs in the upper-cased command, "The command has no results!" otherwise |
| `SqlCommand.SetNocountOnIsUpperCase` | cs-database/src/main/java/io/cloudslang/content/database/actions/SQLCommand.java:140 | the directive constant is upper case, so it can match the upper-cased command |
| `SqlCommand.NoCountDirectiveAnyCase` | cs-database/src/main/java/io/cloudslang/content/database/actions/SQLCommand.java:138-142 | no rows and count -1: the directive written in any letter case anywhere in the command (for example "set nocount on") makes the output text `res` |
| `SqlCommand.RowListingCase` | cs-database/src/main/java/io/cloudslang/content/database/actions/SQLCommand.java:143-146 | rows present, no console case: the output text is every row in order with a line feed after each; its length is the rows' total length plus the row count; single-line rows split back out of it unchanged |
| `SqlCommand.RenderRows` | cs-database/src/main/java/io/cloudslang/content/database/actions/SQLCommand.java:144-146 | the rendered rows are empty exactly when there are no rows, and otherwise end in a line feed |
| `SqlCommand.RenderRowsAppend` | cs-database/src/main/java/io/cloudslang/content/database/actions/SQLCommand.java:144-146 | appending rows one at a time, as the loop does, renders a list of rows as the concatenation of the renderings of its parts |
| `SqlCommand.RenderRowsLength` | cs-database/src/main/java/io/cloudslang/content/database/actions/SQLCommand.java:144-146 | the rendered rows are as long as the rows together plus one line feed per row |
| `SqlCommand.SplitRenderedRows` | cs-database/src/main/java/io/cloudslang/content/database/actions/SQLCommand.java:144-146 | splitting the rendered text at line feeds gives back the original rows, in order, when no row contains a line feed |
| `SqlCommand.SucceedsIff` | cs-database/src/main/java/io/cloudslang/content/database/actions/SQLCommand.java:117-160 | a return code is always set and is SUCCESS or FAILURE; it is SUCCESS exactly when the inputs were processed, the command is non-empty and the driver did not throw |
| `SqlCommand.SuccessResult` | cs-database/src/main/java/io/cloudslang/content/database/actions/SQLCommand.java:149-152 | on success the map has exactly the keys updateCount, RETURNRESULT, OUTPUTTEXT and RETURN_CODE; updateCount is in String.valueOf's canonical form and reads back as the driver's count, RETURNRESULT and OUTPUTTEXT are the cascade's results, RETURN_CODE is SUCCESS |
| `SqlCommand.EmptyCommandFailsFast` | cs-database/src/main/java/io/cloudslang/content/database/actions/SQLCommand.java:120-122 | a null or empty command gives exactly {RETURNRESULT: "command input is empty.", RETURN_CODE: FAILURE}, whatever the driver would have done |
| `SqlCommand.WhitespaceCommandReachesDriver` | cs-database/src/main/java/io/cloudslang/content/database/actions/SQLCommand.java:120 | every non-empty whitespace-only command passes the guard and succeeds when the driver does |
| `SqlCommand.FailureClassification` | cs-database/src/main/java/io/cloudslang/content/database/actions/SQLCommand.java:153-160 | a failure map holds RETURN_CODE and exactly one of EXCEPTION or RETURNRESULT; EXCEPTION is present exactly when the exception was a SQLException and holds the rendering from whichever step threw it; RETURNRESULT holds the other exception's message, "command input is empty." for the guard |
| `JavaStrings.IntToDecimal` | cs-database/src/main/java/io/cloudslang/content/database/actions/SQLCommand.java:135 | String.valueOf's text is non-empty, starts with a minus sign exactly when the value is negative, and is otherwise made of digits only |
| `JavaStrings.IntToDecimalRoundTrip` | cs-database/src/main/java/io/cloudslang/content/database/actions/SQLCommand.java:149 | the decimal rendering of the update count parses back to the count |
| `JavaStrings.IntToDecimalCanonical` | cs-database/src/main/java/io/cloudslang/content/database/actions/SQLCommand.java:149 | String.valueOf's text has no leading zero and starts with a minus sign exactly when the value is negative |
| `JavaStrings.CanonicalDecimalUnique` | cs-database/src/main/java/io/cloudslang/content/database/actions/SQLCommand.java:149 | a canonical numeral that parses to n is exactly String.valueOf(n), so canonical form plus round trip pin the text |
| `JavaStrings.IntToDecimalInjective` | cs-database/src/main/java/io/cloudslang/content/database/actions/SQLCommand.java:135 | different counts render to different texts |
| `JavaStrings.ToLower` | cs-database/src/main/java/io/cloudslang/content/database/actions/SQLCommand.java:129 | String.toLowerCase: same length, no ASCII upper-case letter left, every other character kept; `ToLowerIdempotent` adds that it is idempotent and undoes a prior upper-casing (also used at cs-jclouds/src/main/java/io/cloudslang/content/jclouds/entities/aws/NetworkInterfaceStatus.java:26 and ImageState.java:21) |
| `JavaStrings.ToUpper` | cs-database/src/main/java/io/cloudslang/content/database/actions/SQLCommand.java:140 | String.toUpperCase: same length, no ASCII lower-case letter left, every other character kept; `ToUpperIdempotent` adds that it is idempotent and undoes a prior lower-casing (also used at ImageState.java:21 and Hypervisor.java:20) |
| `JavaStrings.EqualsIgnoreCase` | cs-database/src/main/java/io/cloudslang/content/database/actions/SQLCommand.java:128-130 | String.equalsIgnoreCase: every string equals itself, strings of different lengths never match; `EqualsIgnoreCaseIff` characterises it as equality after lower-casing, and after upper-casing |
| `JavaStrings.Contains` | cs-database/src/main/java/io/cloudslang/content/database/actions/SQLCommand.java:129 | String.contains: the empty string is in every string, a longer string is in none; `ContainsIff` characterises it as an occurrence at some position |
| `JavaStrings.ContainsIff` | cs-database/src/main/java/io/cloudslang/content/database/actions/SQLCommand.java:129 | the contains scan succeeds exactly when the searched text occurs at some position |
| `JavaStrings.EqualsIgnoreCaseIff` | cs-database/src/main/java/io/cloudslang/content/database/actions/SQLCommand.java:128 | equalsIgnoreCase holds exactly when both strings lower-case alike, and exactly when both upper-case alike |
| `JavaStrings.IsWhitespace` | cs-jclouds/src/main/java/io/cloudslang/content/jclouds/entities/aws/NetworkInterfaceStatus.java:21 | Character.isWhitespace, as StringUtils.isBlank uses it: a whitespace character is no ASCII letter or digit and case folding leaves it unchanged; the set is the Unicode space separators except U+00A0, U+2007 and U+202F, plus U+2028, U+2029 and the controls U+0009-U+000D and U+001C-U+001F |
| `JavaStrings.IsEmpty` | cs-database/src/main/java/io/cloudslang/content/database/actions/SQLCommand.java:120 | StringUtils.isEmpty: an empty string is also blank, and a string with any character (whitespace included) is not empty |
| `JavaStrings.IsBlank` | cs-jclouds/src/main/java/io/cloudslang/content/jclouds/entities/aws/NetworkInterfaceStatus.java:21 | StringUtils.isBlank: a blank string holds no ASCII letter or digit, so no member token is blank |
| `JavaStrings.BlankUnderFolding` | cs-jclouds/src/main/java/io/cloudslang/content/jclouds/entities/aws/NetworkInterfaceStatus.java:21-26 | case folding never makes a string blank or non-blank |
| `NetworkInterfaceStatus.FindByValue` | cs-jclouds/src/main/java/io/cloudslang/content/jclouds/entities/aws/NetworkInterfaceStatus.java:25-29 | the search returns a member whose value equals the wanted string, or reports that no member has that value |
| `NetworkInterfaceStatus.GetValue` | cs-jclouds/src/main/java/io/cloudslang/content/jclouds/entities/aws/NetworkInterfaceStatus.java:20-32 | blank gives NOT_RELEVANT; non-blank input is accepted exactly when its lower-case form is "available" or "in-use", and then that lower-case form is returned; results are only those tokens or NOT_RELEVANT; otherwise an error whose message embeds the input in brackets |
| `NetworkInterfaceStatus.CaseInsensitive` | cs-jclouds/src/main/java/io/cloudslang/content/jclouds/entities/aws/NetworkInterfaceStatus.java:26 | inputs equal ignoring case are accepted alike and normalised to the same token |
| `NetworkInterfaceStatus.Idempotent` | cs-jclouds/src/main/java/io/cloudslang/content/jclouds/entities/aws/NetworkInterfaceStatus.java:26-27 | normalising an accepted non-blank input's result again gives the same result |
| `NetworkInterfaceStatus.Examples` | cs-jclouds/src/main/java/io/cloudslang/content/jclouds/entities/aws/NetworkInterfaceStatus.java:21-31 | "IN-USE" gives "in-use"; "in_use" and " available " are errors |
| `NetworkInterfaceStatus.BlankExamples` | cs-jclouds/src/main/java/io/cloudslang/content/jclouds/entities/aws/NetworkInterfaceStatus.java:21-23 | whitespace-only input, Unicode whitespace such as U+3000 and U+2028 included, gives NOT_RELEVANT; a lone non-breaking space U+00A0 is not blank and is an error |
| `ImageState.ValueOf` | cs-jclouds/src/main/java/io/cloudslang/content/jclouds/entities/aws/ImageState.java:21 | valueOf finds the member with exactly that name, or reports that none has it |
| `ImageState.NameFoldsToValue` | cs-jclouds/src/main/java/io/cloudslang/content/jclouds/entities/aws/ImageState.java:21 | the upper-cased input is a member's name exactly when the lower-cased input is that name in lower case |
| `ImageState.GetValue` | cs-jclouds/src/main/java/io/cloudslang/content/jclouds/entities/aws/ImageState.java:15-25 | blank gives NOT_RELEVANT; non-blank input is accepted exactly when its lower-case form is "available", "pending" or "failed", and then that form is returned; otherwise an error embedding the input in brackets and listing the valid values |
| `ImageState.CaseInsensitive` | cs-jclouds/src/main/java/io/cloudslang/content/jclouds/entities/aws/ImageState.java:21 | inputs equal ignoring case are accepted alike and normalised to the same token |
| `ImageState.Idempotent` | cs-jclouds/src/main/java/io/cloudslang/content/jclouds/entities/aws/ImageState.java:21 | normalising an accepted non-blank input's result again gives the same result |
| `ImageState.Examples` | cs-jclouds/src/main/java/io/cloudslang/content/jclouds/entities/aws/ImageState.java:16-24 | "Pending" gives "pending"; the padded " failed" is an error |
| `Hypervisor.ValueOf` | cs-jclouds/src/main/java/io/cloudslang/content/jclouds/entities/aws/Hypervisor.java:20 | valueOf finds the member with exactly that name, or reports that none has it |
| `Hypervisor.NameFoldsToValue` | cs-jclouds/src/main/java/io/cloudslang/content/jclouds/entities/aws/Hypervisor.java:20 | the upper-cased input is a member's name exactly when the lower-cased input is that name in lower case |
| `Hypervisor.GetValue` | cs-jclouds/src/main/java/io/cloudslang/content/jclouds/entities/aws/Hypervisor.java:14-24 | blank gives NOT_RELEVANT; non-blank input is accepted exactly when its lower-case form is "ovm" or "xen", and then that form is returned; otherwise an error embedding the input in brackets and listing "ovm, xen" |
| `Hypervisor.CaseInsensitive` | cs-jclouds/src/main/java/io/cloudslang/content/jclouds/entities/aws/Hypervisor.java:20 | inputs equal ignoring case are accepted alike and normalised to the same token |
| `Hypervisor.Idempotent` | cs-jclouds/src/main/java/io/cloudslang/content/jclouds/entities/aws/Hypervisor.java:20 | normalising an accepted non-blank input's result again gives the same result |
| `Hypervisor.Examples` | cs-jclouds/src/main/java/io/cloudslang/content/jclouds/entities/aws/Hypervisor.java:15-23 | "XEN" gives "xen"; "kvm" is an error |

## Left out

- The JDBC call `SQLCommandService.executeSqlCommand` (connection, pooling, TLS, statement execution) is network I/O. Its outcome is a parameter: the returned text, rows and update count, or the exception it threw.
- `InputsProcessor.handleInputParameters` (SQLCommand.java:119, the first statement inside the `try`) is not part of this model. The parameter `prepared` stands for that call alone: the processed inputs, or the exception it threw, which the catch block turns into a FAILURE map.
- The statements before the `try` (SQLCommand.java:77-115: building `mySqlInputs` with the `SQLInputsValidator` defaulting helpers, `getDbUrls`, `SQLCommandUtil.createInputParametersMap` and the two puts) are not modelled. An exception thrown there escapes `execute` without any result map; the model has no such outcome.
- When those statements complete normally, the `mySqlInputs` object they build is never read afterwards, so it has no effect on the result map.
- `SQLUtils.toString(SQLException)` is not part of this model. A SQL exception is carried already rendered.
- A null `res`, a null exception message and null row elements are not modelled. These are Java nulls that the code would store or print as-is.
- Case folding is ASCII only. Java's `toLowerCase`/`toUpperCase` also fold some non-ASCII letters (for example U+0131 upper-cases to `I`), which would let some non-ASCII spellings through. `Character.isWhitespace` is modelled without U+180E (MONGOLIAN VOWEL SEPARATOR), which it accepts only on JDKs whose Unicode tables still class it as a space separator (Unicode before 6.3).
- Java's `toUpperCase()`/`toLowerCase()` use the default locale, and the model ignores it. Under a Turkish locale, `"failed".toUpperCase()` is `"FAİLED"`, so `ImageState.getValue` rejects it while the model accepts it. The same applies to `"IN-USE"` in `NetworkInterfaceStatus.getValue`. `Hypervisor.getValue` is unaffected, since its tokens contain no `i`.
- The network-probe command test and `DBExceptionValues` (an empty subclass) hold no logic of the core.
