/** ImageState: the states an AWS machine image may be filtered by. The
    members carry no value of their own; getValue upper-cases the input,
    looks the member up by name (Enum.valueOf) and returns the member's
    name lower-cased. */
module ImageState {
  import opened JavaStrings
  import opened AwsLookup

  datatype State = Available | Pending | Failed

  /** name() (and so toString()) of each member. */
  function Name(m: State): string
  {
    match m
    case Available => "AVAILABLE"
    case Pending => "PENDING"
    case Failed => "FAILED"
  }

  /** The canonical lower-case tokens. */
  const ValidValues: set<string> := {"available", "pending", "failed"}

  /** Enum.valueOf: the member whose name is exactly name, or None where
      Java throws IllegalArgumentException. */
  function ValueOf(name: string): (r: Option<State>)
    ensures r.Some? ==> Name(r.value) == name
    ensures r.None? ==> forall m: State :: Name(m) != name
  {
    if name == "AVAILABLE" then Some(Available)
    else if name == "PENDING" then Some(Pending)
    else if name == "FAILED" then Some(Failed)
    else None
  }

  /** ImageState.getValue. A blank input is NOT_RELEVANT; an input equal to
      a member's name ignoring case gives that name in lower case; anything
      else, padded values included, is an error naming the input and
      listing the valid values. */
  function GetValue(input: Option<string>): (r: Lookup)
    ensures IsBlank(input) ==> r == Found(NOT_RELEVANT)
    ensures !IsBlank(input) ==> (r.Found? <==> ToLower(input.value) in ValidValues)
    ensures !IsBlank(input) && r.Found? ==> r.value == ToLower(input.value)
    ensures r.Found? ==> r.value in ValidValues + {NOT_RELEVANT}
    ensures r.Unrecognized? ==>
      !IsBlank(input) &&
      r.message == "Unrecognized image state value: [" + input.value + "]. " +
                   "Valid values are: available, pending, failed."
  {
    if IsBlank(input) then Found(NOT_RELEVANT)
    else
      NameFoldsToValue(input.value);
      match ValueOf(ToUpper(input.value))
      case Some(m) => Found(ToLower(Name(m)))
      case None =>
        Unrecognized("Unrecognized image state value: [" + input.value + "]. " +
                     "Valid values are: available, pending, failed.")
  }

  /** Upper-casing the input hits a member's name exactly when lower-casing
      it hits that name's lower-case form. */
  lemma NameFoldsToValue(s: string)
    ensures forall m: State :: ToUpper(s) == Name(m) <==> ToLower(s) == ToLower(Name(m))
    ensures ToLower(Name(Available)) == "available"
    ensures ToLower(Name(Pending)) == "pending"
    ensures ToLower(Name(Failed)) == "failed"
  {
    forall m: State ensures ToUpper(s) == Name(m) <==> ToLower(s) == ToLower(Name(m)) {
      ToUpperIdempotent(Name(m));
      assert ToUpper(Name(m)) == Name(m) by {
        match m
        case Available => assert ToUpper("AVAILABLE") == "AVAILABLE";
        case Pending => assert ToUpper("PENDING") == "PENDING";
        case Failed => assert ToUpper("FAILED") == "FAILED";
      }
      EqualsIgnoreCaseIff(s, Name(m));
    }
    assert ToLower("AVAILABLE") == "available";
    assert ToLower("PENDING") == "pending";
    assert ToLower("FAILED") == "failed";
  }

  /** Matching ignores case. */
  lemma CaseInsensitive(a: string, b: string)
    requires EqualsIgnoreCase(a, b)
    ensures GetValue(Some(a)).Found? <==> GetValue(Some(b)).Found?
    ensures GetValue(Some(a)).Found? ==> GetValue(Some(a)) == GetValue(Some(b))
  {
    EqualsIgnoreCaseIff(a, b);
    BlankUnderFolding(a);
    BlankUnderFolding(b);
  }

  /** A recognised value is a fixed point. */
  lemma Idempotent(input: Option<string>)
    requires !IsBlank(input) && GetValue(input).Found?
    ensures GetValue(Some(GetValue(input).value)) == GetValue(input)
  {
    var v := GetValue(input).value;
    ToLowerIdempotent(input.value);
    assert v[0] == 'a' || v[0] == 'p' || v[0] == 'f';
    assert !IsBlank(Some(v));
  }

  /** Examples: mixed case is accepted; padding is not trimmed. */
  lemma Examples()
    ensures GetValue(Some("Pending")) == Found("pending")
    ensures GetValue(Some(" failed")).Unrecognized?
  {
    assert ToLower("Pending") == "pending";
    assert !IsBlank(Some("Pending")) by { assert !IsWhitespace("Pending"[0]); }
    assert ToLower(" failed")[0] == ' ';
    assert !IsBlank(Some(" failed")) by { assert !IsWhitespace(" failed"[1]); }
  }
}
