/** The link builder's pure logic: the form record, the URL check
    (`isValidUrl`), the completeness check (`isFormValid`) and the URL
    composer (`generateUrl`) of src/App.jsx.

    `new URL(...)` of the WHATWG URL Standard is not modelled; the composer
    takes it as a parameter `parse` that either fails (the constructor
    throws) or yields the parsed URL's serialization and its `search`. */
module LinkBuilder {
  import opened Strings
  import opened FormUrlEncoded
  import opened CampaignCodes

  /** The twelve string fields of the form, in the order they are declared. */
  datatype Form = Form(
    user: string,
    landingPageUrl: string,
    utmSource: string,
    utmMedium: string,
    campaignName: string,
    businessLine: string,
    startDate: string,
    endDate: string,
    objective: string,
    tactic: string,
    tags: string,
    campaignCode: string)

  /** Every field's initial `useState('')` value. */
  const EmptyForm := Form("", "", "", "", "", "", "", "", "", "", "", "")

  /** Names of the fields, for the statements that range over them. */
  datatype Field =
    | User | LandingPageUrl | UtmSource | UtmMedium | CampaignName | BusinessLine
    | StartDate | EndDate | Objective | Tactic | Tags | CampaignCode

  function Get(f: Form, field: Field): string
  {
    match field
    case User => f.user
    case LandingPageUrl => f.landingPageUrl
    case UtmSource => f.utmSource
    case UtmMedium => f.utmMedium
    case CampaignName => f.campaignName
    case BusinessLine => f.businessLine
    case StartDate => f.startDate
    case EndDate => f.endDate
    case Objective => f.objective
    case Tactic => f.tactic
    case Tags => f.tags
    case CampaignCode => f.campaignCode
  }

  /** The form after one field's setter has run. */
  function With(f: Form, field: Field, v: string): (g: Form)
    ensures Get(g, field) == v
    ensures forall other :: other != field ==> Get(g, other) == Get(f, other)
  {
    match field
    case User => f.(user := v)
    case LandingPageUrl => f.(landingPageUrl := v)
    case UtmSource => f.(utmSource := v)
    case UtmMedium => f.(utmMedium := v)
    case CampaignName => f.(campaignName := v)
    case BusinessLine => f.(businessLine := v)
    case StartDate => f.(startDate := v)
    case EndDate => f.(endDate := v)
    case Objective => f.(objective := v)
    case Tactic => f.(tactic := v)
    case Tags => f.(tags := v)
    case CampaignCode => f.(campaignCode := v)
  }

  /** The placeholder option of the objective and tactic dropdowns. */
  const NoneSelected := "none selected"

  const IncompleteMessage := "Please fill all required fields"
  const InvalidUrlMessage := "Invalid URL format"

  // ---------------------------------------------------------------------
  // isValidUrl and isFormValid
  // ---------------------------------------------------------------------

  /** `isValidUrl`: non-empty and starting with `http://` or `https://`. */
  predicate IsValidUrl(url: string)
    ensures IsValidUrl(url) <==>
      (exists rest :: url == "http://" + rest) || (exists rest :: url == "https://" + rest)
  {
    StartsWithIffConcat(url, "http://");
    StartsWithIffConcat(url, "https://");
    Truthy(url) && (StartsWith(url, "http://") || StartsWith(url, "https://"))
  }

  /** `isFormValid`: the conjunction of the eleven required-field checks. */
  predicate IsFormValid(f: Form)
    ensures IsFormValid(f) ==> forall field :: field != Tags ==> Get(f, field) != ""
  {
    && Truthy(f.user)
    && IsValidUrl(f.landingPageUrl)
    && Truthy(f.utmSource)
    && Truthy(f.utmMedium)
    && Truthy(f.campaignName)
    && Truthy(f.businessLine)
    && Truthy(f.startDate)
    && Truthy(f.endDate)
    && Truthy(f.objective) && f.objective != NoneSelected
    && Truthy(f.tactic) && f.tactic != NoneSelected
    && Truthy(f.campaignCode)
  }

  /** What each field must hold, field by field: the form's own table of
      required inputs, against which `IsFormValid` is checked. */
  predicate Acceptable(field: Field, v: string)
  {
    match field
    case LandingPageUrl => IsValidUrl(v)
    case Objective => v != "" && v != NoneSelected
    case Tactic => v != "" && v != NoneSelected
    case Tags => true
    case _ => v != ""
  }

  /** The form is valid exactly when every field is acceptable. */
  lemma {:induction false} FormValidIffEveryFieldAcceptable(f: Form)
    ensures IsFormValid(f) <==> forall field :: Acceptable(field, Get(f, field))
  {
    if !IsFormValid(f) {
      var bad :=
        if f.user == "" then User
        else if !IsValidUrl(f.landingPageUrl) then LandingPageUrl
        else if f.utmSource == "" then UtmSource
        else if f.utmMedium == "" then UtmMedium
        else if f.campaignName == "" then CampaignName
        else if f.businessLine == "" then BusinessLine
        else if f.startDate == "" then StartDate
        else if f.endDate == "" then EndDate
        else if f.objective == "" || f.objective == NoneSelected then Objective
        else if f.tactic == "" || f.tactic == NoneSelected then Tactic
        else CampaignCode;
      assert !Acceptable(bad, Get(f, bad));
    }
  }

  /** Emptying any field but the tags makes the form invalid. */
  lemma {:induction false} ClearingRequiredFieldInvalidates(f: Form, field: Field)
    requires field != Tags
    ensures !IsFormValid(With(f, field, ""))
  {
    var g := With(f, field, "");
    FormValidIffEveryFieldAcceptable(g);
    assert !Acceptable(field, Get(g, field));
  }

  /** The tags never decide validity. */
  lemma {:induction false} TagsNeverGateValidity(f: Form, v: string)
    ensures IsFormValid(With(f, Tags, v)) == IsFormValid(f)
  {
    var g := With(f, Tags, v);
    FormValidIffEveryFieldAcceptable(f);
    FormValidIffEveryFieldAcceptable(g);
    assert forall field :: Acceptable(field, Get(g, field)) == Acceptable(field, Get(f, field));
  }

  /** Choosing the placeholder for the objective or the tactic makes the
      form invalid, whatever the other fields hold. */
  lemma {:induction false} PlaceholderInvalidates(f: Form, field: Field)
    requires field == Objective || field == Tactic
    ensures !IsFormValid(With(f, field, NoneSelected))
  {
    var g := With(f, field, NoneSelected);
    FormValidIffEveryFieldAcceptable(g);
    assert !Acceptable(field, Get(g, field));
  }

  // ---------------------------------------------------------------------
  // generateUrl
  // ---------------------------------------------------------------------

  /** What `new URL(...)` exposes to the composer: `url.toString()` and
      `url.search`. */
  datatype ParsedUrl = ParsedUrl(href: string, search: string)

  /** The URL constructor: None where it throws. */
  type UrlParser = string -> Option<ParsedUrl>

  /** The pairs appended to the `URLSearchParams`, in order. */
  function UtmParams(f: Form): (ps: seq<Pair>)
    ensures |ps| == (if Truthy(f.tags) then 4 else 3)
  {
    [("utm_source", f.utmSource), ("utm_medium", f.utmMedium), ("utm_campaign", f.campaignCode)]
    + (if Truthy(f.tags) then [("utm_content", f.tags)] else [])
  }

  /** `url.search ? '&' : '?'`. */
  function Separator(search: string): (sep: string)
    ensures |sep| == 1
    ensures sep[0] == '&' <==> Truthy(search)
    ensures sep[0] == '?' <==> !Truthy(search)
  {
    if Truthy(search) then "&" else "?"
  }

  /** `generateUrl`: a diagnostic, or the parsed URL, the separator and the
      serialized parameters. The two diagnostics are told apart from each
      other and from every composed URL. */
  function GenerateUrl(f: Form, parse: UrlParser): (r: string)
    ensures r == IncompleteMessage <==> !IsFormValid(f)
    ensures r == InvalidUrlMessage <==> IsFormValid(f) && parse(f.landingPageUrl).None?
  {
    if !IsFormValid(f) then IncompleteMessage
    else match parse(f.landingPageUrl)
      case None => InvalidUrlMessage
      case Some(url) =>
        var r := url.href + Separator(url.search) + Serialize(UtmParams(f));
        SerializeHasEquals(UtmParams(f));
        DiagnosticsHaveNoEquals();
        assert '=' in r by {
          assert Serialize(UtmParams(f)) <= r[|url.href| + 1..];
        }
        r
  }

  lemma {:induction false} SerializeHasEquals(pairs: seq<Pair>)
    requires pairs != []
    ensures '=' in Serialize(pairs)
  {
    var s := Serialize(pairs);
    var n := |Encode(pairs[0].0)|;
    assert s[n] == '=';
  }

  lemma DiagnosticsHaveNoEquals()
    ensures '=' !in IncompleteMessage && '=' !in InvalidUrlMessage
  {
  }

  lemma UtmKeysUnreserved()
    ensures forall i :: 0 <= i < |"utm_source"| ==> IsUnreserved("utm_source"[i])
    ensures forall i :: 0 <= i < |"utm_medium"| ==> IsUnreserved("utm_medium"[i])
    ensures forall i :: 0 <= i < |"utm_campaign"| ==> IsUnreserved("utm_campaign"[i])
    ensures forall i :: 0 <= i < |"utm_content"| ==> IsUnreserved("utm_content"[i])
  {
  }

  /** Parameter `i`'s key is serialized as it is. The four keys are proved
      one lemma each: every such proof then meets a single literal key, which
      keeps it small for the solver, where one proof over all four is not. */
  predicate KeyWrittenAsIs(f: Form, i: int)
    requires 0 <= i < |UtmParams(f)|
  {
    Encode(UtmParams(f)[i].0) == UtmParams(f)[i].0
  }

  lemma SourceKeyWrittenAsIs(f: Form)
    ensures KeyWrittenAsIs(f, 0)
  {
    UtmKeysUnreserved();
    EncodeUnreserved("utm_source");
  }

  lemma MediumKeyWrittenAsIs(f: Form)
    ensures KeyWrittenAsIs(f, 1)
  {
    UtmKeysUnreserved();
    EncodeUnreserved("utm_medium");
  }

  lemma CampaignKeyWrittenAsIs(f: Form)
    ensures KeyWrittenAsIs(f, 2)
  {
    UtmKeysUnreserved();
    EncodeUnreserved("utm_campaign");
  }

  lemma ContentKeyWrittenAsIs(f: Form)
    requires f.tags != ""
    ensures KeyWrittenAsIs(f, 3)
  {
    UtmKeysUnreserved();
    EncodeUnreserved("utm_content");
  }

  /** None of the four keys needs escaping. */
  lemma {:induction false} UtmKeysNeedNoEscaping(f: Form, i: int)
    requires 0 <= i < |UtmParams(f)|
    ensures Encode(UtmParams(f)[i].0) == UtmParams(f)[i].0
  {
    if i == 0 {
      SourceKeyWrittenAsIs(f);
    } else if i == 1 {
      MediumKeyWrittenAsIs(f);
    } else if i == 2 {
      CampaignKeyWrittenAsIs(f);
    } else {
      ContentKeyWrittenAsIs(f);
    }
  }

  /** A generated campaign code needs no escaping. */
  lemma {:induction false} CampaignCodeEncodesAsItself(code: string)
    requires IsCampaignCode(code)
    ensures Encode(code) == code
  {
    forall i | 0 <= i < |code|
      ensures IsUnreserved(code[i])
    {
      if i < 4 {
        assert code[i] == Prefix[i];
      } else if i >= 12 {
        assert code[i] == code[12..][i - 12];
      } else {
        assert code[i] == code[4..12][i - 4];
      }
    }
    EncodeUnreserved(code);
  }

  /** On success, the result is the parsed URL's `href`, the separator
      and the serialized parameters. */
  lemma {:induction false} GeneratedUrlParts(f: Form, parse: UrlParser, url: ParsedUrl)
    requires IsFormValid(f) && parse(f.landingPageUrl) == Some(url)
    ensures GenerateUrl(f, parse) == url.href + Separator(url.search) + Serialize(UtmParams(f))
  {
  }

  lemma {:induction false} ThreeParts(h: string, sep: string, q: string)
    requires |sep| == 1
    ensures StartsWith(h + sep + q, h)
    ensures (h + sep + q)[|h|] == sep[0] && (h + sep + q)[|h| + 1..] == q
  {
    StartsWithConcat(h, sep + q);
    assert h + sep + q == h + (sep + q);
  }

  /** On success, the result is the parsed URL's `href`, then `&` when the
      URL already has a query and `?` otherwise, then the query. */
  lemma {:induction false} GeneratedUrlStartsWithHref(f: Form, parse: UrlParser, url: ParsedUrl)
    requires IsFormValid(f) && parse(f.landingPageUrl) == Some(url)
    ensures var r := GenerateUrl(f, parse);
      && StartsWith(r, url.href)
      && r[|url.href|] == (if url.search != "" then '&' else '?')
      && r[|url.href| + 1..] == Serialize(UtmParams(f))
  {
    GeneratedUrlParts(f, parse, url);
    ThreeParts(url.href, Separator(url.search), Serialize(UtmParams(f)));
  }

  /** On success, the query is one `key=value` piece per parameter, in the
      order `utm_source`, `utm_medium`, `utm_campaign`, then `utm_content`
      only for non-empty tags; the key is written as it is and the value
      form-urlencoded. */
  lemma {:induction false} GeneratedQueryPieces(f: Form, parse: UrlParser, url: ParsedUrl)
    requires IsFormValid(f) && parse(f.landingPageUrl) == Some(url)
    ensures var pieces := Split(GenerateUrl(f, parse)[|url.href| + 1..], '&');
      && |pieces| == (if f.tags != "" then 4 else 3)
      && forall i :: 0 <= i < |pieces| ==>
           pieces[i] == UtmParams(f)[i].0 + "=" + Encode(UtmParams(f)[i].1)
  {
    GeneratedUrlStartsWithHref(f, parse, url);
    UtmQueryPieces(f);
  }

  lemma {:induction false} UtmQueryPieces(f: Form)
    ensures var ps := UtmParams(f);
      var pieces := Split(Serialize(ps), '&');
      && |pieces| == |ps|
      && forall i :: 0 <= i < |pieces| ==> pieces[i] == ps[i].0 + "=" + Encode(ps[i].1)
  {
    UtmKeysPlain(f);
    PlainNamePieces(UtmParams(f));
  }

  lemma {:induction false} UtmKeysPlain(f: Form)
    ensures forall i :: 0 <= i < |UtmParams(f)| ==> Encode(UtmParams(f)[i].0) == UtmParams(f)[i].0
  {
    forall i | 0 <= i < |UtmParams(f)|
      ensures Encode(UtmParams(f)[i].0) == UtmParams(f)[i].0
    {
      UtmKeysNeedNoEscaping(f, i);
    }
  }

  /** On success, the query parses back, by the urlencoded parser, into
      exactly the parameters the form supplied, in order. */
  lemma {:induction false} GeneratedQueryParsesBack(f: Form, parse: UrlParser, url: ParsedUrl)
    requires IsFormValid(f) && parse(f.landingPageUrl) == Some(url)
    ensures Parse(GenerateUrl(f, parse)[|url.href| + 1..]) == Some(UtmParams(f))
  {
    GeneratedUrlStartsWithHref(f, parse, url);
    ParseSerialize(UtmParams(f));
  }

  /** A valid form whose code was generated carries the code unescaped as
      the value of `utm_campaign`. */
  lemma {:induction false} GeneratedCodeAppearsVerbatim(f: Form, parse: UrlParser, url: ParsedUrl)
    requires IsFormValid(f) && parse(f.landingPageUrl) == Some(url)
    requires IsCampaignCode(f.campaignCode)
    ensures var pieces := Split(GenerateUrl(f, parse)[|url.href| + 1..], '&');
      |pieces| >= 3 && pieces[2] == UtmParams(f)[2].0 + "=" + f.campaignCode
  {
    GeneratedQueryPieces(f, parse, url);
    CampaignCodeEncodesAsItself(f.campaignCode);
  }

  // ---------------------------------------------------------------------
  // Worked cases
  // ---------------------------------------------------------------------

  function SampleForm(landingPageUrl: string, tags: string): Form
  {
    Form("alice", landingPageUrl, "twitter", "paid_social", "q1", "Infura",
         "2024-01-01", "2024-02-01", "awareness", "branding", tags, "cpm-12345678-afbf08")
  }

  /** An `ftp://` destination fails the URL check, so the form is reported
      incomplete before any parsing. */
  lemma {:induction false} SampleOtherScheme(parse: UrlParser)
    ensures GenerateUrl(SampleForm("ftp://bad", ""), parse) == IncompleteMessage
  {
    assert "ftp://bad"[..7][0] == 'f' && "ftp://bad"[..8][0] == 'f';
  }

  /** `http://` passes the URL check; when the URL constructor rejects it,
      the result is the invalid-URL diagnostic. */
  lemma {:induction false} SampleUnparsable(parse: UrlParser)
    requires parse("http://") == None
    ensures IsValidUrl("http://")
    ensures GenerateUrl(SampleForm("http://", ""), parse) == InvalidUrlMessage
  {
    StartsWithConcat("http://", "");
    assert "http://" + "" == "http://";
  }
}
