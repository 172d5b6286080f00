/** The component's state: the twelve field states and `copied`, the
    setters the inputs call, the effect that regenerates the campaign code,
    `copyToClipboard` and `clearAll` (src/App.jsx).

    React re-renders after every setter whose value differs from the old
    one, and then runs the effect if one of its three dependencies changed.
    That schedule is written out here: an input event is the setter
    followed, when a dependency changed, by the effect. */
module FormState {
  import opened Strings
  import opened CampaignCodes
  import opened LinkBuilder

  /** The effect's dependencies `[campaignName, businessLine, utmSource]`. */
  predicate IsTrigger(field: Field)
  {
    field == CampaignName || field == BusinessLine || field == UtmSource
  }

  /** The code is empty, or it is a code `generateCampaignCode` produces:
      the right shape and a serial with no leading zero. */
  predicate CodeShaped(code: string)
  {
    code == "" || (IsCampaignCode(code) && code[4] != '0')
  }

  /** The body of the effect, once `Math.random()` has produced serial `n`:
      a new code when the three dependencies are all truthy, otherwise the
      form as it was. */
  function Regenerate(f: Form, n: int): (g: Form)
    requires IsSerial(n)
    ensures forall field :: field != CampaignCode ==> Get(g, field) == Get(f, field)
    ensures g.campaignCode != f.campaignCode ==> IsCampaignCode(g.campaignCode) && SerialOf(g.campaignCode) == n
    ensures Truthy(f.campaignName) && Truthy(f.businessLine) && Truthy(f.utmSource)
            ==> IsCampaignCode(g.campaignCode) && SerialOf(g.campaignCode) == n
    ensures !(Truthy(f.campaignName) && Truthy(f.businessLine) && Truthy(f.utmSource)) ==> g == f
    ensures CodeShaped(f.campaignCode) ==> CodeShaped(g.campaignCode)
  {
    if Truthy(f.campaignName) && Truthy(f.businessLine) && Truthy(f.utmSource)
    then f.(campaignCode := GenerateCampaignCode(n))
    else f
  }

  /** One input event: the field's setter, then the effect if the field is
      one of its dependencies and its value changed. The code has no input
      of its own. */
  function Edit(f: Form, field: Field, v: string, n: int): (g: Form)
    requires field != CampaignCode && IsSerial(n)
    ensures Get(g, field) == v
    ensures forall other :: other != field && other != CampaignCode ==> Get(g, other) == Get(f, other)
    ensures g.campaignCode != f.campaignCode ==>
      && IsTrigger(field) && v != Get(f, field)
      && Truthy(g.campaignName) && Truthy(g.businessLine) && Truthy(g.utmSource)
      && IsCampaignCode(g.campaignCode) && SerialOf(g.campaignCode) == n
    ensures CodeShaped(f.campaignCode) ==> CodeShaped(g.campaignCode)
  {
    var g := With(f, field, v);
    if IsTrigger(field) && v != Get(f, field) then Regenerate(g, n) else g
  }

  /** What a user can do to the form's fields. */
  datatype Event =
    | Input(field: Field, value: string, serial: int)
    | ClearAllPressed

  predicate WellFormed(e: Event)
  {
    e.Input? ==> e.field != CampaignCode && IsSerial(e.serial)
  }

  function Apply(f: Form, e: Event): Form
    requires WellFormed(e)
  {
    match e
    case Input(field, v, n) => Edit(f, field, v, n)
    case ClearAllPressed => EmptyForm
  }

  /** The form after a session of events, starting from `f`. */
  function Replay(f: Form, events: seq<Event>): Form
    requires forall i :: 0 <= i < |events| ==> WellFormed(events[i])
    decreases |events|
  {
    if events == [] then f else Replay(Apply(f, events[0]), events[1..])
  }

  // ---------------------------------------------------------------------
  // The component as an object whose fields the setters update
  // ---------------------------------------------------------------------

  class UtmForm {
    var user: string
    var landingPageUrl: string
    var utmSource: string
    var utmMedium: string
    var campaignName: string
    var businessLine: string
    var startDate: string
    var endDate: string
    var objective: string
    var tactic: string
    var tags: string
    var campaignCode: string
    var copied: bool

    function Fields(): Form
      reads this
    {
      Form(user, landingPageUrl, utmSource, utmMedium, campaignName, businessLine,
           startDate, endDate, objective, tactic, tags, campaignCode)
    }

    /** The code field only ever holds a generated code, or nothing. */
    ghost predicate Valid()
      reads this
    {
      CodeShaped(campaignCode)
    }

    /** Every `useState('')`, and `useState(false)` for `copied`. */
    constructor()
      ensures Fields() == EmptyForm && !copied && Valid()
    {
      user, landingPageUrl, utmSource, utmMedium := "", "", "", "";
      campaignName, businessLine, startDate, endDate := "", "", "", "";
      objective, tactic, tags, campaignCode := "", "", "", "";
      copied := false;
    }

    /** The setter an input's `onChange` calls. */
    method Set(field: Field, v: string)
      requires field != CampaignCode
      modifies this
      ensures Fields() == With(old(Fields()), field, v)
      ensures copied == old(copied)
    {
      match field {
        case User => user := v;
        case LandingPageUrl => landingPageUrl := v;
        case UtmSource => utmSource := v;
        case UtmMedium => utmMedium := v;
        case CampaignName => campaignName := v;
        case BusinessLine => businessLine := v;
        case StartDate => startDate := v;
        case EndDate => endDate := v;
        case Objective => objective := v;
        case Tactic => tactic := v;
        case Tags => tags := v;
      }
    }

    /** The effect's body with serial `n`. */
    method RunEffect(n: int)
      requires IsSerial(n)
      modifies this
      ensures Fields() == Regenerate(old(Fields()), n)
      ensures copied == old(copied)
      ensures old(Valid()) ==> Valid()
    {
      if Truthy(campaignName) && Truthy(businessLine) && Truthy(utmSource) {
        campaignCode := GenerateCampaignCode(n);
      }
    }

    /** An input event: the setter, then the effect when a dependency
        changed. */
    method Input(field: Field, v: string, n: int)
      requires field != CampaignCode && IsSerial(n)
      modifies this
      ensures Fields() == Edit(old(Fields()), field, v, n)
      ensures copied == old(copied)
      ensures old(Valid()) ==> Valid()
    {
      var before := Get(Fields(), field);
      Set(field, v);
      if IsTrigger(field) && v != before {
        RunEffect(n);
      }
    }

    /** `clearAll`: every field back to `''`. The effect then sees its
        dependencies emptied and leaves the code empty; `copied` is not
        touched. */
    method ClearAll()
      modifies this
      ensures Fields() == EmptyForm
      ensures copied == old(copied)
      ensures Valid()
    {
      user := "";
      landingPageUrl := "";
      utmSource := "";
      utmMedium := "";
      campaignName := "";
      businessLine := "";
      startDate := "";
      endDate := "";
      objective := "";
      tactic := "";
      tags := "";
      campaignCode := "";
    }

    /** `copyToClipboard`: only a valid form writes its URL; `copied` turns
        on once the write has succeeded. The result is what was handed to
        the clipboard, if anything. Whatever is written carries a code that
        some in-range serial generates. */
    method CopyToClipboard(parse: UrlParser, writeSucceeds: bool) returns (written: Option<string>)
      requires Valid()
      modifies this
      ensures written == (if IsFormValid(Fields()) then Some(GenerateUrl(Fields(), parse)) else None)
      ensures written.Some? ==>
        && IsCampaignCode(campaignCode)
        && IsSerial(SerialOf(campaignCode))
        && GenerateCampaignCode(SerialOf(campaignCode)) == campaignCode
      ensures copied == (if IsFormValid(Fields()) && writeSucceeds then true else old(copied))
      ensures Fields() == old(Fields())
    {
      var f := Fields();
      if IsFormValid(f) {
        ValidFormCarriesGeneratedCode(f);
        written := Some(GenerateUrl(f, parse));
        if writeSucceeds {
          copied := true;
        }
      } else {
        written := None;
      }
    }

    /** The timer `copyToClipboard` starts: `copied` back to false. */
    method CopiedTimeout()
      modifies this
      ensures !copied
      ensures Fields() == old(Fields())
    {
      copied := false;
    }
  }

  // ---------------------------------------------------------------------
  // Lemmas
  // ---------------------------------------------------------------------

  /** A session never leaves anything but a generated code, or nothing, in
      the code field. */
  lemma {:induction false} ReplayKeepsCodeShaped(f: Form, events: seq<Event>)
    requires forall i :: 0 <= i < |events| ==> WellFormed(events[i])
    requires CodeShaped(f.campaignCode)
    ensures CodeShaped(Replay(f, events).campaignCode)
    decreases |events|
  {
    if events != [] {
      ReplayKeepsCodeShaped(Apply(f, events[0]), events[1..]);
    }
  }

  /** Whatever a session did, once the form is valid its code is exactly
      the code of some eight-digit serial. */
  lemma {:induction false} ValidSessionCarriesGeneratedCode(events: seq<Event>)
    requires forall i :: 0 <= i < |events| ==> WellFormed(events[i])
    requires IsFormValid(Replay(EmptyForm, events))
    ensures var code := Replay(EmptyForm, events).campaignCode;
      && IsCampaignCode(code)
      && IsSerial(SerialOf(code))
      && GenerateCampaignCode(SerialOf(code)) == code
  {
    ReplayKeepsCodeShaped(EmptyForm, events);
    ValidFormCarriesGeneratedCode(Replay(EmptyForm, events));
  }

  /** A valid form whose code field is shaped carries exactly the code of
      some eight-digit serial. */
  lemma {:induction false} ValidFormCarriesGeneratedCode(f: Form)
    requires CodeShaped(f.campaignCode) && IsFormValid(f)
    ensures IsCampaignCode(f.campaignCode)
    ensures IsSerial(SerialOf(f.campaignCode))
    ensures GenerateCampaignCode(SerialOf(f.campaignCode)) == f.campaignCode
  {
    assert Get(f, CampaignCode) != "";
    EveryShapedCodeIsGenerated(f.campaignCode);
  }

  /** Editing a field other than the three dependencies keeps the code. */
  lemma {:induction false} NonTriggerEditKeepsCode(f: Form, field: Field, v: string, n: int)
    requires field != CampaignCode && !IsTrigger(field) && IsSerial(n)
    ensures Edit(f, field, v, n).campaignCode == f.campaignCode
  {
  }

  /** Emptying a dependency keeps the old code: the effect runs but does
      not fire, and the form is then incomplete. */
  lemma {:induction false} EmptyingTriggerKeepsCode(f: Form, field: Field, n: int)
    requires IsTrigger(field) && IsSerial(n)
    ensures Edit(f, field, "", n).campaignCode == f.campaignCode
    ensures !IsFormValid(Edit(f, field, "", n))
  {
    ClearingRequiredFieldInvalidates(f, field);
  }

  /** Changing a dependency while another one is still empty keeps the
      code: the effect runs but its condition fails. */
  lemma {:induction false} IncompleteDependenciesKeepCode(f: Form, field: Field, v: string, n: int)
    requires IsTrigger(field) && IsSerial(n)
    requires var g := With(f, field, v);
      !(Truthy(g.campaignName) && Truthy(g.businessLine) && Truthy(g.utmSource))
    ensures Edit(f, field, v, n).campaignCode == f.campaignCode
  {
  }

  /** Changing a dependency while all three are filled draws a new code
      from the serial. */
  lemma {:induction false} ChangedTriggerRegenerates(f: Form, field: Field, v: string, n: int)
    requires IsTrigger(field) && IsSerial(n) && v != Get(f, field)
    requires Truthy(Get(With(f, field, v), CampaignName))
    requires Truthy(Get(With(f, field, v), BusinessLine))
    requires Truthy(Get(With(f, field, v), UtmSource))
    ensures Edit(f, field, v, n).campaignCode == GenerateCampaignCode(n)
  {
  }

  /** A cleared form is incomplete, the effect leaves it as it is, and so a
      fresh code needs all three dependencies filled again. */
  lemma ClearedFormIsIdle(n: int)
    requires IsSerial(n)
    ensures !IsFormValid(EmptyForm)
    ensures Regenerate(EmptyForm, n) == EmptyForm
  {
  }
}
