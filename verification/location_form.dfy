/** The admin location form's validation schema (playbuddy_web/src/lib/zod.ts).
    Every rule of a field is checked and reported; a coordinate that does
    not coerce to a number reports only that, and its range rules do not
    run. */
module LocationForm {
  import opened Wrappers
  import Text

  datatype Field = Name | Description | Latitude | Longitude | SportTypes

  datatype Issue = Issue(field: Field, message: string)

  datatype SportTypeOption = SportTypeOption(id: string, name: string)

  /** The form's values. A coordinate is `None` when the text typed into it
      does not coerce to a number. */
  datatype Form = Form(
    name: string,
    description: string,
    latitude: Option<real>,
    longitude: Option<real>,
    sportTypes: seq<SportTypeOption>)

  /** `[A-Za-z0-9 -]`. */
  predicate IsNameChar(c: char) {
    Text.IsAlnum(c) || c == ' ' || c == '-'
  }

  /** `/^[A-Za-z0-9 -]+$/`. */
  predicate NamePattern(s: string) {
    |s| > 0 && forall i :: 0 <= i < |s| ==> IsNameChar(s[i])
  }

  const NameLengthMessage := "Name must be between 1-50 characters long"
  const DescriptionLengthMessage := "Description must be between 1-300 characters long"
  const NotANumberMessage := "Please enter a valid number"

  function NameIssues(name: string): (issues: seq<Issue>)
    ensures forall i :: 0 <= i < |issues| ==> issues[i].field == Name
  {
    (if NamePattern(name) then []
     else [Issue(Name, "Only letters, numbers, spaces, and hyphens are allowed")])
    + (if |name| < 1 then [Issue(Name, NameLengthMessage)] else [])
    + (if |name| > 50 then [Issue(Name, NameLengthMessage)] else [])
  }

  function DescriptionIssues(d: string): (issues: seq<Issue>)
    ensures forall i :: 0 <= i < |issues| ==> issues[i].field == Description
  {
    (if |d| < 1 then [Issue(Description, DescriptionLengthMessage)] else [])
    + (if |d| > 300 then [Issue(Description, DescriptionLengthMessage)] else [])
  }

  /** A coerced coordinate: not a number, or the two refinements (non-zero,
      within `[-bound, bound]`). */
  function CoordinateIssues(f: Field, v: Option<real>, bound: real, zeroMessage: string,
                            rangeMessage: string): (issues: seq<Issue>)
    ensures forall i :: 0 <= i < |issues| ==> issues[i].field == f
  {
    match v
    case None => [Issue(f, NotANumberMessage)]
    case Some(x) =>
      (if x != 0.0 then [] else [Issue(f, zeroMessage)])
      + (if -bound <= x <= bound then [] else [Issue(f, rangeMessage)])
  }

  /** Every issue the schema reports for a form, field by field. */
  function Issues(form: Form): (issues: seq<Issue>)
  {
    NameIssues(form.name)
    + DescriptionIssues(form.description)
    + CoordinateIssues(Latitude, form.latitude, 90.0, "Latitude cannot be 0",
                       "Latitude must be between -90 and 90")
    + CoordinateIssues(Longitude, form.longitude, 180.0, "Longitude cannot be 0",
                       "Longitude must be between -180 and 180")
    + (if |form.sportTypes| >= 1 then [] else [Issue(SportTypes, "Select at least one sport type")])
  }

  /** A form the schema accepts, stated on its own terms. */
  predicate Acceptable(form: Form) {
    && 1 <= |form.name| <= 50
    && (forall i :: 0 <= i < |form.name| ==> IsNameChar(form.name[i]))
    && 1 <= |form.description| <= 300
    && form.latitude.Some? && form.latitude.value != 0.0
    && -90.0 <= form.latitude.value <= 90.0
    && form.longitude.Some? && form.longitude.value != 0.0
    && -180.0 <= form.longitude.value <= 180.0
    && |form.sportTypes| >= 1
  }

  /** The schema reports no issue exactly for the acceptable forms. */
  lemma NoIssuesIffAcceptable(form: Form)
    ensures Issues(form) == [] <==> Acceptable(form)
  {
  }

  /** Some issue in `issues` is about field `f`. */
  predicate HasField(issues: seq<Issue>, f: Field) {
    exists i :: 0 <= i < |issues| && issues[i].field == f
  }

  /** Concatenated reports are about a field exactly when one of the parts is. */
  lemma ConcatHasField(a: seq<Issue>, b: seq<Issue>, f: Field)
    ensures HasField(a + b, f) <==> HasField(a, f) || HasField(b, f)
  {
    if HasField(a + b, f) {
      var i :| 0 <= i < |a + b| && (a + b)[i].field == f;
      if i < |a| {
        assert a[i] == (a + b)[i];
      } else {
        assert b[i - |a|] == (a + b)[i];
      }
    }
    if HasField(a, f) {
      var i :| 0 <= i < |a| && a[i].field == f;
      assert (a + b)[i] == a[i];
    }
    if HasField(b, f) {
      var i :| 0 <= i < |b| && b[i].field == f;
      assert (a + b)[|a| + i] == b[i];
    }
  }

  /** Reports that are all about `own` are about `f` exactly when there is
      one and `f` is `own`. */
  lemma OwnField(issues: seq<Issue>, own: Field, f: Field)
    requires forall i :: 0 <= i < |issues| ==> issues[i].field == own
    ensures HasField(issues, f) <==> issues != [] && f == own
  {
    if issues != [] {
      assert issues[0].field == own;
    }
  }

  /** Every field reports only about itself: an issue about a field depends
      on that field's value alone. */
  lemma IssuesOfField(form: Form, f: Field)
    ensures HasField(Issues(form), f) <==>
            match f
            case Name => NameIssues(form.name) != []
            case Description => DescriptionIssues(form.description) != []
            case Latitude => !(form.latitude.Some? && form.latitude.value != 0.0
                               && -90.0 <= form.latitude.value <= 90.0)
            case Longitude => !(form.longitude.Some? && form.longitude.value != 0.0
                                && -180.0 <= form.longitude.value <= 180.0)
            case SportTypes => |form.sportTypes| == 0
  {
    var n := NameIssues(form.name);
    var d := DescriptionIssues(form.description);
    var la := CoordinateIssues(Latitude, form.latitude, 90.0, "Latitude cannot be 0",
                               "Latitude must be between -90 and 90");
    var lo := CoordinateIssues(Longitude, form.longitude, 180.0, "Longitude cannot be 0",
                               "Longitude must be between -180 and 180");
    var st := if |form.sportTypes| >= 1 then [] else [Issue(SportTypes, "Select at least one sport type")];
    assert Issues(form) == n + d + la + lo + st;
    ConcatHasField(n + d + la + lo, st, f);
    ConcatHasField(n + d + la, lo, f);
    ConcatHasField(n + d, la, f);
    ConcatHasField(n, d, f);
    OwnField(n, Name, f);
    OwnField(d, Description, f);
    OwnField(la, Latitude, f);
    OwnField(lo, Longitude, f);
    OwnField(st, SportTypes, f);
  }
}
