/** The Area schema of models/area.model.js: a required name, a required owner
    called `user`, and steepness tags drawn from the configured options,
    defaulting to none. */
module AreaModel {
  import opened Wrappers
  import opened Entities

  /** The fields handed to `new Area(...)`; an absent field is `None`. Keys
      outside the schema (such as `userId`) are dropped by the constructor and
      do not appear here. */
  datatype AreaInput = AreaInput(
    name: Option<string>,
    user: Option<UserId>,
    steepnessTags: Option<seq<string>>)

  /** The element paths `steepnessTags.i` whose tag is not an option. */
  function TagErrors(tags: seq<string>, options: seq<string>): set<Path> {
    set i | 0 <= i < |tags| && tags[i] !in options :: Element("steepnessTags", i)
  }

  function AreaErrors(input: AreaInput, options: seq<string>): set<Path> {
    (if PresentString(input.name) then {} else {Field("name")})
    + (if input.user.Some? then {} else {Field("user")})
    + TagErrors(input.steepnessTags.GetOr([]), options)
  }

  /** `validate()` before `save()`: the document with `steepnessTags`
      defaulted to the empty list, or the failing paths. */
  function ValidateArea(input: AreaInput, options: seq<string>): (r: Result<Area, set<Path>>)
    ensures r.Failure? ==> r.error != {}
    ensures r.Success? <==>
      && PresentString(input.name)
      && input.user.Some?
      && forall t :: t in input.steepnessTags.GetOr([]) ==> t in options
    ensures r.Success? ==> r.value == Area(input.name.value, input.user.value, input.steepnessTags.GetOr([]))
    ensures r.Failure? ==>
      && (Field("name") in r.error <==> !PresentString(input.name))
      && (Field("user") in r.error <==> input.user.None?)
      && (forall i: nat :: Element("steepnessTags", i) in r.error <==>
            i < |input.steepnessTags.GetOr([])| && input.steepnessTags.GetOr([])[i] !in options)
  {
    var tags := input.steepnessTags.GetOr([]);
    var errors := AreaErrors(input, options);
    assert (forall t :: t in tags ==> t in options) <==> TagErrors(tags, options) == {} by {
      if t :| t in tags && t !in options {
        var i :| 0 <= i < |tags| && tags[i] == t;
        assert Element("steepnessTags", i) in TagErrors(tags, options);
      }
    }
    if errors != {} then Failure(errors)
    else Success(Area(input.name.value, input.user.value, tags))
  }

  /** Any list of configured options is accepted and kept as given, including
      the full list of options. */
  lemma ValidTagsAccepted(name: string, user: UserId, tags: seq<string>, options: seq<string>)
    requires name != ""
    requires forall t :: t in tags ==> t in options
    ensures ValidateArea(AreaInput(Some(name), Some(user), Some(tags)), options) == Success(Area(name, user, tags))
    ensures ValidateArea(AreaInput(Some(name), Some(user), Some(options)), options) == Success(Area(name, user, options))
  {
  }

  /** One tag outside the options is enough to reject the area, on that tag's
      path and no other tag's. */
  lemma InvalidTagRejected(name: string, user: UserId, tags: seq<string>, options: seq<string>, i: nat)
    requires i < |tags| && tags[i] !in options
    ensures var r := ValidateArea(AreaInput(Some(name), Some(user), Some(tags)), options);
            && r.Failure?
            && Element("steepnessTags", i) in r.error
            && forall j: nat :: j < |tags| && tags[j] in options ==> Element("steepnessTags", j) !in r.error
  {
  }

  /** The schema's examples: a named area with an owner and no tags saves with
      the empty list; without a name it fails on `name`; a single unknown tag
      fails on `steepnessTags.0`; an area given its owner under `userId` (a key
      the schema drops) fails on `user`. */
  lemma AreaSchemaExamples(options: seq<string>)
    requires "invalid" !in options
    ensures ValidateArea(AreaInput(Some("Test Area"), Some(1), None), options) == Success(Area("Test Area", 1, []))
    ensures ValidateArea(AreaInput(None, Some(1), None), options) == Failure({Field("name")})
    ensures ValidateArea(AreaInput(Some("Test Area"), Some(1), Some(["invalid"])), options)
            == Failure({Element("steepnessTags", 0)})
    ensures ValidateArea(AreaInput(Some("Test Area"), None, None), options) == Failure({Field("user")})
  {
    assert TagErrors([], options) == {};
    assert AreaErrors(AreaInput(None, Some(1), None), options) == {Field("name")};
    assert AreaErrors(AreaInput(Some("Test Area"), None, None), options) == {Field("user")};
    var one := TagErrors(["invalid"], options);
    assert Element("steepnessTags", 0) in one;
    assert one == {Element("steepnessTags", 0)};
    assert AreaErrors(AreaInput(Some("Test Area"), Some(1), Some(["invalid"])), options) == one;
  }
}
