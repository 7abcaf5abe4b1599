/** NetworkInterfaceStatus: the states an AWS network interface may be
    filtered by. Each member carries its lower-case wire value; getValue
    scans the members for the one whose value equals the lower-cased input. */
module NetworkInterfaceStatus {
  import opened JavaStrings
  import opened AwsLookup

  datatype Status = Available | InUse

  /** The value each member is constructed with. */
  function Value(m: Status): string
  {
    match m
    case Available => "available"
    case InUse => "in-use"
  }

  /** values(), in declaration order. */
  const Members: seq<Status> := [Available, InUse]

  /** The wire values, as a set. */
  const ValidValues: set<string> := {"available", "in-use"}

  /** The for loop over values() with its early return: the first member
      whose value equals wanted, if any. */
  function FindByValue(members: seq<Status>, wanted: string): (r: Option<Status>)
    ensures r.Some? ==> r.value in members && Value(r.value) == wanted
    ensures r.None? ==> forall m :: m in members ==> Value(m) != wanted
  {
    if members == [] then None
    else if Value(members[0]) == wanted then Some(members[0])
    else FindByValue(members[1..], wanted)
  }

  /** NetworkInterfaceStatus.getValue. A blank input is NOT_RELEVANT; an
      input whose lower-case form is a member's value gives that value;
      anything else is an error naming the input. There is no trimming. */
  function GetValue(input: Option<string>): (r: Lookup)
    ensures IsBlank(input) ==> r == Found(NOT_RELEVANT)
    ensures !IsBlank(input) ==> (r.Found? <==> ToLower(input.value) in ValidValues)
    ensures !IsBlank(input) && r.Found? ==> r.value == ToLower(input.value)
    ensures r.Found? ==> r.value in ValidValues + {NOT_RELEVANT}
    ensures r.Unrecognized? ==>
      !IsBlank(input) &&
      r.message == "Unrecognized network interface status value: [" + input.value + "]. " +
                   "Valid values are: available, in-use."
  {
    if IsBlank(input) then Found(NOT_RELEVANT)
    else
      match FindByValue(Members, ToLower(input.value))
      case Some(m) => Found(Value(m))
      case None =>
        Unrecognized("Unrecognized network interface status value: [" + input.value + "]. " +
                     "Valid values are: available, in-use.")
  }

  /** Matching ignores case: two inputs that differ only in the case of
      their letters are normalised alike. */
  lemma CaseInsensitive(a: string, b: string)
    requires EqualsIgnoreCase(a, b)
    ensures GetValue(Some(a)).Found? <==> GetValue(Some(b)).Found?
    ensures GetValue(Some(a)).Found? ==> GetValue(Some(a)) == GetValue(Some(b))
  {
    EqualsIgnoreCaseIff(a, b);
    BlankUnderFolding(a);
    BlankUnderFolding(b);
  }

  /** A recognised value is a fixed point: normalising it again gives it
      back. */
  lemma Idempotent(input: Option<string>)
    requires !IsBlank(input) && GetValue(input).Found?
    ensures GetValue(Some(GetValue(input).value)) == GetValue(input)
  {
    var v := GetValue(input).value;
    ToLowerIdempotent(input.value);
    assert v[0] == 'a' || v[0] == 'i';
    assert !IsBlank(Some(v));
  }

  /** Examples: an upper-case spelling is accepted; the enum constant's own
      name and a padded value are not. */
  lemma Examples()
    ensures GetValue(Some("IN-USE")) == Found("in-use")
    ensures GetValue(Some("in_use")).Unrecognized?
    ensures GetValue(Some(" available ")).Unrecognized?
  {
    assert ToLower("IN-USE") == "in-use";
    assert !IsBlank(Some("IN-USE")) by { assert !IsWhitespace("IN-USE"[0]); }
    assert ToLower("in_use")[2] == '_';
    assert !IsBlank(Some("in_use")) by { assert !IsWhitespace("in_use"[0]); }
    assert ToLower(" available ")[0] == ' ';
    assert !IsBlank(Some(" available ")) by { assert !IsWhitespace(" available "[1]); }
  }

  /** Blank examples: spaces, and Unicode whitespace such as U+3000 and
      U+2028, are NOT_RELEVANT, while the non-breaking space U+00A0 is not
      whitespace and so is an error. */
  lemma BlankExamples()
    ensures GetValue(Some("   ")) == Found(NOT_RELEVANT)
    ensures GetValue(Some("\U{3000}\U{2028}\t")) == Found(NOT_RELEVANT)
    ensures GetValue(Some("\U{00A0}")).Unrecognized?
  {
    assert !IsBlank(Some("\U{00A0}")) by { assert !IsWhitespace("\U{00A0}"[0]); }
    assert ToLower("\U{00A0}") == "\U{00A0}";
  }
}
