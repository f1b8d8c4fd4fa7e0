/**
 * `IcaResponseParser`: turns the public-data document the card reader returns
 * into an `IcaCardData`.  The document is taken already parsed, as the list of
 * its elements in document order (what `XDocument.Descendants()` walks), each
 * with its local name and its `Value`.  Each card field is looked up under a
 * priority list of alias names.
 */
module ResponseParser {
  import opened Wrappers
  import opened DotNetText

  /** An element of the document: its local name and its text value (the
      concatenated text of everything inside it). */
  datatype Element = Element(localName: string, value: string)

  /** `IcaCardData`; `D` is the date type (`DateOnly`). */
  datatype CardData<D> = CardData(
    eidNumber: string,
    fullNameEn: string,
    nationality: string,
    dob: D,
    gender: string,
    expiry: D,
    rawSignedResponseXml: Option<string>,
    requestId: Option<string>)

  const IdNumberNames: seq<string> := ["IdNumber", "EmiratesId", "EidNumber"]
  const FullNameNames: seq<string> := ["FullNameEnglish", "FullNameEn", "NameEnglish"]
  const NationalityNames: seq<string> := ["Nationality", "NationalityEnglish"]
  const DateOfBirthNames: seq<string> := ["DateOfBirth", "Dob", "BirthDate"]
  const GenderNames: seq<string> := ["Gender"]
  const ExpiryNames: seq<string> := ["ExpiryDate", "CardExpiryDate"]
  const RequestIdNames: seq<string> := ["RequestID"]

  /** Upper-casing of one character, for ASCII letters. */
  function UpperInvariant(c: char): char {
    if 'a' <= c <= 'z' then (c as int - 32) as char else c
  }

  /** Upper-casing of a whole string, character by character. */
  function ToUpperInvariant(s: string): (u: string)
    ensures |u| == |s|
    ensures forall i :: 0 <= i < |s| ==> u[i] == UpperInvariant(s[i])
  {
    seq(|s|, i requires 0 <= i < |s| => UpperInvariant(s[i]))
  }

  /** `string.Equals(a, b, StringComparison.OrdinalIgnoreCase)`: the two
      strings are equal once both are upper-cased; equal strings match. */
  predicate EqualsIgnoreCase(a: string, b: string)
    ensures EqualsIgnoreCase(a, b) <==> ToUpperInvariant(a) == ToUpperInvariant(b)
    ensures a == b ==> EqualsIgnoreCase(a, b)
  {
    |a| == |b| && forall i :: 0 <= i < |a| ==> UpperInvariant(a[i]) == UpperInvariant(b[i])
  }

  /** The position of the first element, in document order, whose local name
      is `name` up to case. */
  function FirstMatch(doc: seq<Element>, name: string): (r: Option<nat>)
    ensures r.Some? ==> r.value < |doc| && EqualsIgnoreCase(doc[r.value].localName, name)
    ensures r.Some? ==> forall j :: 0 <= j < r.value ==> !EqualsIgnoreCase(doc[j].localName, name)
    ensures r.None? ==> forall j :: 0 <= j < |doc| ==> !EqualsIgnoreCase(doc[j].localName, name)
    decreases |doc|
  {
    if doc == [] then None
    else if EqualsIgnoreCase(doc[0].localName, name) then Some(0)
    else match FirstMatch(doc[1..], name)
      case None => None
      case Some(i) => Some(i + 1)
  }

  /** What one alias name yields: the trimmed value of its first element,
      unless there is no such element or its value is blank. */
  function NameValue(doc: seq<Element>, name: string): (r: Option<string>)
    ensures r.Some? ==> r.value != [] && IsTrimmed(r.value)
  {
    match FirstMatch(doc, name)
    case None => None
    case Some(i) => if IsBlank(doc[i].value) then None else Some(Trim(doc[i].value))
  }

  /** What a name yields is decided by its first matching element alone: the
      trimmed text of that element unless it is blank, and nothing when no
      element matches. */
  lemma NameValueOfFirstElement(doc: seq<Element>, name: string, i: nat)
    requires i < |doc| && EqualsIgnoreCase(doc[i].localName, name)
    requires forall j :: 0 <= j < i ==> !EqualsIgnoreCase(doc[j].localName, name)
    ensures NameValue(doc, name) == if IsBlank(doc[i].value) then None else Some(Trim(doc[i].value))
  {
  }

  /** A name no element matches yields nothing. */
  lemma NameValueOfNoElement(doc: seq<Element>, name: string)
    requires forall j :: 0 <= j < |doc| ==> !EqualsIgnoreCase(doc[j].localName, name)
    ensures NameValue(doc, name) == None
  {
  }

  /** `GetValue(doc, names)`: the value of the first alias, in priority
      order, that yields one, or the empty string when none does. */
  function GetValue(doc: seq<Element>, names: seq<string>): (r: string)
    ensures IsTrimmed(r)
    ensures r == [] <==> forall k :: 0 <= k < |names| ==> NameValue(doc, names[k]).None?
    ensures r != [] ==> exists k :: 0 <= k < |names| && NameValue(doc, names[k]) == Some(r)
                                   && forall j :: 0 <= j < k ==> NameValue(doc, names[j]).None?
    decreases |names|
  {
    if names == [] then []
    else match NameValue(doc, names[0])
      case Some(v) => v
      case None =>
        var r := GetValue(doc, names[1..]);
        SkipAlias(doc, names, r);
        r
  }

  /** When the first alias yields nothing, the lookup's properties for the
      remaining aliases carry over to the whole list. */
  lemma SkipAlias(doc: seq<Element>, names: seq<string>, r: string)
    requires names != [] && NameValue(doc, names[0]).None?
    requires r == [] <==> forall k :: 0 <= k < |names| - 1 ==> NameValue(doc, names[1..][k]).None?
    requires r != [] ==> exists k :: 0 <= k < |names| - 1 && NameValue(doc, names[1..][k]) == Some(r)
                                   && forall j :: 0 <= j < k ==> NameValue(doc, names[1..][j]).None?
    ensures r == [] <==> forall k :: 0 <= k < |names| ==> NameValue(doc, names[k]).None?
    ensures r != [] ==> exists k :: 0 <= k < |names| && NameValue(doc, names[k]) == Some(r)
                                   && forall j :: 0 <= j < k ==> NameValue(doc, names[j]).None?
  {
    if r == [] {
      SkipAliasNone(doc, names);
    } else {
      var k :| 0 <= k < |names| - 1 && NameValue(doc, names[1..][k]) == Some(r)
               && forall j :: 0 <= j < k ==> NameValue(doc, names[1..][j]).None?;
      SkipAliasSome(doc, names, k, r);
    }
  }

  /** Nothing yields among the remaining aliases, nor the first. */
  lemma SkipAliasNone(doc: seq<Element>, names: seq<string>)
    requires names != [] && NameValue(doc, names[0]).None?
    requires forall k :: 0 <= k < |names| - 1 ==> NameValue(doc, names[1..][k]).None?
    ensures forall k :: 0 <= k < |names| ==> NameValue(doc, names[k]).None?
  {
    forall k | 0 < k < |names| ensures NameValue(doc, names[k]).None? {
      assert names[k] == names[1..][k - 1];
    }
  }

  /** The `k`-th remaining alias is the first to yield, so it is the
      `k + 1`-th of the whole list. */
  lemma SkipAliasSome(doc: seq<Element>, names: seq<string>, k: nat, r: string)
    requires names != [] && NameValue(doc, names[0]).None?
    requires k < |names| - 1 && NameValue(doc, names[1..][k]) == Some(r)
    requires forall j :: 0 <= j < k ==> NameValue(doc, names[1..][j]).None?
    ensures !forall j :: 0 <= j < |names| ==> NameValue(doc, names[j]).None?
    ensures exists k' :: 0 <= k' < |names| && NameValue(doc, names[k']) == Some(r)
                       && forall j :: 0 <= j < k' ==> NameValue(doc, names[j]).None?
  {
    assert names[k + 1] == names[1..][k];
    forall j | 0 < j < k + 1 ensures NameValue(doc, names[j]).None? {
      assert names[j] == names[1..][j - 1];
    }
  }

  /** Elements after the first match of a name never change what that name
      yields: a blank first match is not replaced by a later one. */
  lemma {:induction false} FirstMatchIgnoresLater(doc: seq<Element>, later: seq<Element>, name: string)
    requires FirstMatch(doc, name).Some?
    ensures FirstMatch(doc + later, name) == FirstMatch(doc, name)
    ensures NameValue(doc + later, name) == NameValue(doc, name)
    decreases |doc|
  {
    if !EqualsIgnoreCase(doc[0].localName, name) {
      assert (doc + later)[1..] == doc[1..] + later;
      FirstMatchIgnoresLater(doc[1..], later, name);
    }
    var i := FirstMatch(doc, name).value;
    assert (doc + later)[i] == doc[i];
  }

  /** Once every alias has an element in `doc`, appending more elements does
      not change the looked-up value. */
  lemma {:induction false} GetValueIgnoresLater(doc: seq<Element>, later: seq<Element>, names: seq<string>)
    requires forall k :: 0 <= k < |names| ==> FirstMatch(doc, names[k]).Some?
    ensures GetValue(doc + later, names) == GetValue(doc, names)
    decreases |names|
  {
    if names != [] {
      FirstMatchIgnoresLater(doc, later, names[0]);
      GetValueIgnoresLater(doc, later, names[1..]);
    }
  }

  /** A blank first `Gender` element hides a later non-blank one. */
  lemma BlankFirstMatchHidesLaterValue()
    ensures GetValue([Element("Gender", " "), Element("gender", "M")], GenderNames) == []
  {
    var doc := [Element("Gender", " "), Element("gender", "M")];
    assert FirstMatch(doc, "Gender") == Some(0);
    assert IsBlank(doc[0].value);
  }

  /** `ParsePublicDataXml(xml)`, given the parsed elements of `xml` and the
      date parser.  Each field is the lookup of its own alias list (the dates
      through the date parser), the raw response is kept verbatim, the request
      id is always present, and every text field is trimmed. */
  function ParsePublicDataXml<D>(xml: string, doc: seq<Element>, parseDate: string -> D): (card: CardData<D>)
    ensures card.eidNumber == GetValue(doc, IdNumberNames)
    ensures card.fullNameEn == GetValue(doc, FullNameNames)
    ensures card.nationality == GetValue(doc, NationalityNames)
    ensures card.dob == parseDate(GetValue(doc, DateOfBirthNames))
    ensures card.gender == GetValue(doc, GenderNames)
    ensures card.expiry == parseDate(GetValue(doc, ExpiryNames))
    ensures card.requestId == Some(GetValue(doc, RequestIdNames))
    ensures card.rawSignedResponseXml == Some(xml)
    ensures card.requestId.Some? && IsTrimmed(card.requestId.value)
    ensures IsTrimmed(card.eidNumber) && IsTrimmed(card.fullNameEn)
    ensures IsTrimmed(card.nationality) && IsTrimmed(card.gender)
  {
    CardData(
      eidNumber := GetValue(doc, IdNumberNames),
      fullNameEn := GetValue(doc, FullNameNames),
      nationality := GetValue(doc, NationalityNames),
      dob := parseDate(GetValue(doc, DateOfBirthNames)),
      gender := GetValue(doc, GenderNames),
      expiry := parseDate(GetValue(doc, ExpiryNames)),
      rawSignedResponseXml := Some(xml),
      requestId := Some(GetValue(doc, RequestIdNames)))
  }

  /** Each field is empty exactly when none of its aliases yields a value,
      and the request id comes from the `RequestID` element alone. */
  lemma ParsedFieldsEmptyWhenAbsent<D>(xml: string, doc: seq<Element>, parseDate: string -> D)
    ensures var card := ParsePublicDataXml(xml, doc, parseDate);
      && (card.eidNumber == [] <==> forall k :: 0 <= k < |IdNumberNames| ==> NameValue(doc, IdNumberNames[k]).None?)
      && (card.fullNameEn == [] <==> forall k :: 0 <= k < |FullNameNames| ==> NameValue(doc, FullNameNames[k]).None?)
      && (card.nationality == [] <==> forall k :: 0 <= k < |NationalityNames| ==> NameValue(doc, NationalityNames[k]).None?)
      && (card.gender == [] <==> NameValue(doc, "Gender").None?)
      && (card.requestId == Some([]) <==> NameValue(doc, "RequestID").None?)
      && (NameValue(doc, "RequestID").Some? ==> card.requestId == NameValue(doc, "RequestID"))
  {
  }
}
