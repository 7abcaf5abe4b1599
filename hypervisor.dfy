/** Hypervisor: the virtualisation types an AWS image or instance may be
    filtered by. getValue upper-cases the input, looks the member up by
    name (Enum.valueOf) and returns the member's name lower-cased. */
module Hypervisor {
  import opened JavaStrings
  import opened AwsLookup

  datatype Kind = Ovm | Xen

  /** name() (and so toString()) of each member. */
  function Name(m: Kind): string
  {
    match m
    case Ovm => "OVM"
    case Xen => "XEN"
  }

  /** The canonical lower-case tokens. */
  const ValidValues: set<string> := {"ovm", "xen"}

  /** Enum.valueOf: the member whose name is exactly name, or None where
      Java throws IllegalArgumentException. */
  function ValueOf(name: string): (r: Option<Kind>)
    ensures r.Some? ==> Name(r.value) == name
    ensures r.None? ==> forall m: Kind :: Name(m) != name
  {
    if name == "OVM" then Some(Ovm)
    else if name == "XEN" then Some(Xen)
    else None
  }

  /** Hypervisor.getValue. A blank input is NOT_RELEVANT; "ovm" or "xen" in
      any case gives the lower-case name; anything else is an error naming
      the input and listing the valid values. */
  function GetValue(input: Option<string>): (r: Lookup)
    ensures IsBlank(input) ==> r == Found(NOT_RELEVANT)
    ensures !IsBlank(input) ==> (r.Found? <==> ToLower(input.value) in ValidValues)
    ensures !IsBlank(input) && r.Found? ==> r.value == ToLower(input.value)
    ensures r.Found? ==> r.value in ValidValues + {NOT_RELEVANT}
    ensures r.Unrecognized? ==>
      !IsBlank(input) &&
      r.message == "Invalid hypervisor value: [" + input.value + "]. Valid values: ovm, xen."
  {
    if IsBlank(input) then Found(NOT_RELEVANT)
    else
      NameFoldsToValue(input.value);
      match ValueOf(ToUpper(input.value))
      case Some(m) => Found(ToLower(Name(m)))
      case None =>
        Unrecognized("Invalid hypervisor value: [" + input.value + "]. Valid values: ovm, xen.")
  }

  /** Upper-casing the input hits a member's name exactly when lower-casing
      it hits that name's lower-case form. */
  lemma NameFoldsToValue(s: string)
    ensures forall m: Kind :: ToUpper(s) == Name(m) <==> ToLower(s) == ToLower(Name(m))
    ensures ToLower(Name(Ovm)) == "ovm"
    ensures ToLower(Name(Xen)) == "xen"
  {
    forall m: Kind ensures ToUpper(s) == Name(m) <==> ToLower(s) == ToLower(Name(m)) {
      ToUpperIdempotent(Name(m));
      assert ToUpper(Name(m)) == Name(m) by {
        match m
        case Ovm => assert ToUpper("OVM") == "OVM";
        case Xen => assert ToUpper("XEN") == "XEN";
      }
      EqualsIgnoreCaseIff(s, Name(m));
    }
    assert ToLower("OVM") == "ovm";
    assert ToLower("XEN") == "xen";
  }

  /** Matching ignores case. */
  lemma CaseInsensitive(a: string, b: string)
    requires EqualsIgnoreCase(a, b)
    ensures GetValue(Some(a)).Found? <==> GetValue(Some(b)).Found?
    ensures GetValue(Some(a)).Found? ==> GetValue(Some(a)) == GetValue(Some(b))
  {
    EqualsIgnoreCaseIff(a, b);
    BlankUnderFolding(a);
    BlankUnderFolding(b);
  }

  /** A recognised value is a fixed point. */
  lemma Idempotent(input: Option<string>)
    requires !IsBlank(input) && GetValue(input).Found?
    ensures GetValue(Some(GetValue(input).value)) == GetValue(input)
  {
    var v := GetValue(input).value;
    ToLowerIdempotent(input.value);
    assert v[0] == 'o' || v[0] == 'x';
    assert !IsBlank(Some(v));
  }

  /** Examples: "XEN" is accepted as "xen"; "kvm" is not a member. */
  lemma Examples()
    ensures GetValue(Some("XEN")) == Found("xen")
    ensures GetValue(Some("kvm")).Unrecognized?
  {
    assert ToLower("XEN") == "xen";
    assert !IsBlank(Some("XEN")) by { assert !IsWhitespace("XEN"[0]); }
    assert ToLower("kvm")[0] == 'k';
    assert !IsBlank(Some("kvm")) by { assert !IsWhitespace("kvm"[0]); }
  }
}
