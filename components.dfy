/**
 * IOComponent (IOComponent.h / IOComponent.cpp): the immutable (name, format)
 * descriptor of one sensor or actuator channel. As a datatype it has no
 * operation that changes it; the two-argument constructor and the accessors
 * name() and format() are the datatype's constructor and destructors.
 */
module Components {
  import opened Json

  datatype IOComponent = IOComponent(name: string, format: string)

  /** The default-constructed component: both fields empty. */
  const Default: IOComponent := IOComponent("", "")

  /** IOComponent::isValid: both the name and the format are non-empty. */
  predicate IsValid(c: IOComponent)
  {
    c.name != "" && c.format != ""
  }

  /**
   * IOComponent::fromJson with its `ok` out-parameter returned alongside: a
   * missing key gives the default component and false; otherwise the component
   * built from the two string values, and whether it is valid.
   */
  function FromJson(obj: map<string, Json>): (r: (IOComponent, bool))
    ensures r.1 ==> IsValid(r.0) && "name" in obj && "format" in obj
    ensures ("name" !in obj || "format" !in obj) ==> r == (Default, false)
    ensures !r.1 ==> !IsValid(r.0)
  {
    if "name" !in obj || "format" !in obj then (Default, false)
    else
      var c := IOComponent(StringMember(obj, "name"), StringMember(obj, "format"));
      (c, IsValid(c))
  }

  /** IOComponent::toJson: an object with the two string members. */
  function ToJson(c: IOComponent): map<string, Json>
  {
    map["name" := JString(c.name), "format" := JString(c.format)]
  }

  /** A default-constructed component is not valid. */
  lemma DefaultInvalid()
    ensures !IsValid(Default)
  {
  }

  /** With a key missing, fromJson reports failure and returns the default component. */
  lemma FromJsonMissingKey(obj: map<string, Json>)
    requires "name" !in obj || "format" !in obj
    ensures FromJson(obj) == (Default, false)
  {
  }

  /** With both keys present, `ok` is the validity of the component built from their string values. */
  lemma FromJsonBothKeys(obj: map<string, Json>)
    requires "name" in obj && "format" in obj
    ensures FromJson(obj).0 == IOComponent(StringMember(obj, "name"), StringMember(obj, "format"))
    ensures FromJson(obj).1 == IsValid(FromJson(obj).0)
  {
  }

  /** fromJson succeeds exactly when both members are present and are non-empty strings. */
  lemma FromJsonOkIff(obj: map<string, Json>)
    ensures FromJson(obj).1 <==>
              ("name" in obj && obj["name"].JString? && obj["name"].s != "" &&
               "format" in obj && obj["format"].JString? && obj["format"].s != "")
  {
  }

  /** toJson gives an object with exactly the members "name" and "format", holding the component's fields. */
  lemma ToJsonShape(c: IOComponent)
    ensures ToJson(c).Keys == {"name", "format"}
    ensures ToJson(c)["name"] == JString(c.name) && ToJson(c)["format"] == JString(c.format)
  {
  }

  /** fromJson(toJson(c)) rebuilds c, and reports ok exactly when c is valid. */
  lemma RoundTrip(c: IOComponent)
    ensures FromJson(ToJson(c)) == (c, IsValid(c))
  {
  }
}
