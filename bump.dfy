/**
  The bump itself: look up the document's "version" entry, check and parse it,
  add one to the patch, render it and store it back under the same key. Any
  failure happens before the document is touched.
*/
module Bump {
  import opened Wrappers
  import opened Json
  import opened Strings
  import opened Decimal
  import opened SemVer

  /** Why a bump fails, one case per check the script makes on the decoded
      document. */
  datatype BumpError =
    | MissingVersion                       // no "version" key (a KeyError)
    | VersionNotString(found: JsonValue)   // "version" is not a string, so `.split` fails
    | MalformedVersion(raw: string)        // not x.y.z digits; carries the offending text

  /** A successful bump: the updated document and the new version string. */
  datatype Bumped = Bumped(document: Document, version: string)

  /** Every entry other than "version" is the same in both documents, and both
      have the same keys. */
  predicate SameOutsideVersion(before: Document, after: Document)
  {
    && after.Keys == before.Keys
    && forall k :: k in before && k != VersionKey ==> after[k] == before[k]
  }

  /** The bump as a function of the decoded document. */
  function BumpDocument(doc: Document): (r: Result<Bumped, BumpError>)
    ensures VersionKey !in doc ==> r == Err(MissingVersion)
    ensures VersionKey in doc && !doc[VersionKey].JString? ==> r == Err(VersionNotString(doc[VersionKey]))
    ensures VersionKey in doc && doc[VersionKey].JString? ==>
      var raw := doc[VersionKey].s;
      && (r.Ok? <==> IsVersionText(raw))
      && (r.Err? ==> r.error == MalformedVersion(raw))
    ensures r.Ok? ==>
      && SameOutsideVersion(doc, r.value.document)
      && r.value.document[VersionKey] == JString(r.value.version)
      && IsVersionText(r.value.version)
    ensures r.Ok? ==>
      && VersionKey in doc && doc[VersionKey].JString? && Parse(doc[VersionKey].s).Some?
      && var was := Parse(doc[VersionKey].s).value;
         && Parse(r.value.version) == Some(Version(was.major, was.minor, was.patch + 1))
         && r.value.version == Render(Version(was.major, was.minor, was.patch + 1))
  {
    if VersionKey !in doc then Err(MissingVersion)
    else match doc[VersionKey]
      case JString(raw) =>
        (match BumpPatch(raw)
         case None => Err(MalformedVersion(raw))
         case Some(next) => Ok(Bumped(doc[VersionKey := JString(next)], next)))
      case other => Err(VersionNotString(other))
  }

  /** Bumping a document twice raises the patch by two and still leaves every
      other entry as it was. */
  lemma BumpDocumentTwice(doc: Document)
    requires BumpDocument(doc).Ok?
    ensures var once := BumpDocument(doc).value;
      var twice := BumpDocument(once.document);
      var was := Parse(doc[VersionKey].s).value;
      && twice.Ok?
      && twice.value.version != once.version
      && SameOutsideVersion(doc, twice.value.document)
      && Parse(twice.value.version) == Some(Version(was.major, was.minor, was.patch + 2))
  {
  }

  /** An example: `{"version": "1.2.3", "author": "Team"}` becomes
      `{"version": "1.2.4", "author": "Team"}` and the new version is "1.2.4". */
  lemma BumpDocumentExample(doc: Document)
    requires doc == map[VersionKey := JString("1.2.3"), "author" := JString("Team")]
    ensures BumpDocument(doc)
      == Ok(Bumped(map[VersionKey := JString("1.2.4"), "author" := JString("Team")], "1.2.4"))
  {
    var raw := doc[VersionKey].s;
    BumpPlain(raw);
    assert doc[VersionKey] == JString(raw);
    assert doc[VersionKey := JString("1.2.4")]
      == map[VersionKey := JString("1.2.4"), "author" := JString("Team")];
  }

  /** The mod metadata file, seen through its decoded contents: `document` is
      what the file holds. A bump works on a copy of it and writes the copy
      back only once every check has passed. */
  class ModInfo {
    var document: Document

    constructor (contents: Document)
      ensures document == contents
    {
      document := contents;
    }

    /** Bumps the patch of the stored version and returns the new version
        string; on failure nothing is written. */
    method BumpVersion() returns (r: Result<string, BumpError>)
      modifies this
      ensures match BumpDocument(old(document))
        case Ok(b) => r == Ok(b.version) && document == b.document
        case Err(e) => r == Err(e) && document == old(document)
      ensures r.Ok? ==>
        && SameOutsideVersion(old(document), document)
        && document[VersionKey] == JString(r.value)
      ensures r.Err? ==> document == old(document)
    {
      var data := document;
      if VersionKey !in data {
        return Err(MissingVersion);
      }
      var current := data[VersionKey];
      if !current.JString? {
        return Err(VersionNotString(current));
      }
      var parts := Split(current.s, '.');
      if !WellFormedParts(parts) {
        return Err(MalformedVersion(current.s));
      }
      var major, minor, patch := ParseNat(parts[0]), ParseNat(parts[1]), ParseNat(parts[2]);
      patch := patch + 1;
      var next := Render(Version(major, minor, patch));
      data := data[VersionKey := JString(next)];
      document := data;
      r := Ok(next);
    }
  }
}
