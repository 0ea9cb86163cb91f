/**
 * `Any.deviceName`: the device's model, prefixed with its manufacturer unless the model already
 * starts with it. `Build.MANUFACTURER` and `Build.MODEL` are parameters here.
 */
module AnyExtensions {
  import opened KotlinText

  /** The ASCII upper-case letter for a lower-case one; every other character is kept. */
  function UpperCase(c: char): (u: char)
    ensures IsAsciiLower(c) ==> 'A' <= u <= 'Z' && u as int == c as int - 32
    ensures !IsAsciiLower(c) ==> u == c
  {
    if IsAsciiLower(c) then (c as int - 32) as char else c
  }

  /** `capitalize(locale)`: upper-cases the first character when it is lower case, leaves the rest. */
  function Capitalize(s: string): (r: string)
    ensures |r| == |s|
    ensures s != [] ==> r[0] == UpperCase(s[0]) && r[1..] == s[1..]
  {
    if s == [] then s else [UpperCase(s[0])] + s[1..]
  }

  /** `model.startsWith(manufacturer)`: `prefix` matches `s` character by character from the start. */
  function StartsWith(s: string, prefix: string): (b: bool)
    ensures b <==> |prefix| <= |s| && forall i | 0 <= i < |prefix| :: s[i] == prefix[i]
  {
    |prefix| <= |s| && s[..|prefix|] == prefix
  }

  /**
   * `deviceName`. When the model starts with the manufacturer the name is the model with its first
   * letter capitalised; otherwise it is the capitalised manufacturer, one space and the model
   * unchanged.
   */
  function DeviceName(manufacturer: string, model: string): (name: string)
    ensures StartsWith(model, manufacturer) ==>
      |name| == |model| &&
      (model != [] ==> name[0] == UpperCase(model[0]) && name[1..] == model[1..])
    ensures !StartsWith(model, manufacturer) ==>
      manufacturer != [] &&
      |name| == |manufacturer| + 1 + |model| &&
      name[0] == UpperCase(manufacturer[0]) &&
      name[1..|manufacturer|] == manufacturer[1..] &&
      name[|manufacturer|] == ' ' &&
      name[|manufacturer| + 1..] == model
  {
    if StartsWith(model, manufacturer) then Capitalize(model)
    else
      var c := Capitalize(manufacturer);
      assert manufacturer != [] by {
        assert model[..0] == [];
      }
      assert (c + " " + model)[|manufacturer| + 1..] == model;
      assert (c + " " + model)[1..|manufacturer|] == c[1..];
      c + " " + model
  }

  /** Every model starts with the empty manufacturer, so the name is then the capitalised model. */
  lemma DeviceNameEmptyManufacturer(model: string)
    ensures DeviceName("", model) == Capitalize(model)
  {
    assert model[..0] == "";
  }

  /** A model that repeats the manufacturer is not prefixed twice. */
  lemma DeviceNameExample(manufacturer: string, model: string)
    requires manufacturer == "samsung" && model == "samsung SM-G960F"
    ensures DeviceName(manufacturer, model) == "Samsung SM-G960F"
  {
    assert model[..7] == manufacturer;
  }

  /** A model that does not repeat the manufacturer gets it in front. */
  lemma DeviceNamePrefixedExample(manufacturer: string, model: string)
    requires manufacturer == "google" && model == "Pixel 4"
    ensures DeviceName(manufacturer, model) == "Google Pixel 4"
  {
    assert model[0] != manufacturer[0];
  }
}
