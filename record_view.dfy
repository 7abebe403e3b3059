/** The read path of use-gist.ts (`useGist`, lines 20-105): a delivery from the store is cleaned,
    its `files` field decoded, its address recomputed and compared with the address subscribed
    to, and only then is the record handed to the page. */
module RecordView {
  import opened Wrappers
  import opened Assoc
  import opened Canon

  /** The store's metadata field `_`. */
  datatype NodeMeta = NodeMeta(soul: string)

  /** A delivered `files` field: a string to decode, a value already structured, or undefined. */
  datatype FilesField = Encoded(text: string) | Structured(json: FilesJson) | Missing

  /** A delivery that is not null: what the store holds under the address, with its metadata. */
  datatype RawNode = RawNode(
    meta: Option<NodeMeta>,
    id: Option<string>,
    description: Option<string>,
    files: FilesField,
    createdAt: Option<int>,
    updatedAt: Option<int>,
    owner: Option<string>)

  /** `cleanData`: the delivery without `_`, its `files` decoded. */
  datatype CleanNode = CleanNode(
    id: Option<string>,
    description: Option<string>,
    files: FilesJson,
    createdAt: Option<int>,
    updatedAt: Option<int>,
    owner: Option<string>)

  /** use-gist.ts:41-54. A string that fails to parse, a `null` and an undefined `files` all
      become `{}`; the only way `files` stays null is a string that parses to null. */
  function Normalized(n: RawNode, p: Primitives): (c: CleanNode)
    ensures c.id == n.id && c.description == n.description && c.owner == n.owner
    ensures c.createdAt == n.createdAt && c.updatedAt == n.updatedAt
    ensures c.files.JNull? <==> n.files.Encoded? && p.decodeFiles(n.files.text) == Some(JNull)
    ensures n.files.Encoded? && p.decodeFiles(n.files.text).Some? ==>
      c.files == p.decodeFiles(n.files.text).value
    ensures n.files.Encoded? && p.decodeFiles(n.files.text).None? ==> c.files == JObject([])
    ensures n.files.Structured? ==> c.files == (if n.files.json.JNull? then JObject([]) else n.files.json)
    ensures n.files.Missing? ==> c.files == JObject([])
  {
    var files :=
      match n.files
      case Encoded(text) => (match p.decodeFiles(text) case Some(j) => j case None => JObject([]))
      case Structured(JNull) => JObject([])
      case Structured(j) => j
      case Missing => JObject([]);
    CleanNode(n.id, n.description, files, n.createdAt, n.updatedAt, n.owner)
  }

  /** use-gist.ts:59-77: the address the cleaned record's content derives, or what it throws. */
  function RecomputeAddress(c: CleanNode, p: Primitives): Result<string, Fault>
  {
    match ReadCanonical(c.description, c.files)
    case Failure(e) => Failure(e)
    case Success(canonical) => DeriveAddress(p, canonical)
  }

  /** What became of one delivery. */
  datatype Verdict =
    | NotFound                               // the delivery was null or undefined
    | Mismatch(computed: string)             // content does not derive the address: suppressed
    | Verified(record: CleanNode)            // content derives the address: published
    | Unverified(record: CleanNode, fault: Fault)  // the check threw: logged, still published
    | Refused(fault: Fault)                  // the check threw: suppressed (ListenStrict only)

  /** The value given to `setGist`. */
  function Shown(v: Verdict): Option<CleanNode>
  {
    match v
    case Verified(r) => Some(r)
    case Unverified(r, _) => Some(r)
    case _ => None
  }

  /** The listener of use-gist.ts:38-95, as written. */
  function Listen(address: string, data: Option<RawNode>, p: Primitives): (v: Verdict)
    ensures data.None? ==> v == NotFound
    ensures v.Verified? <==> data.Some? && RecomputeAddress(Normalized(data.value, p), p) == Success(address)
    ensures v.Mismatch? <==>
      && data.Some?
      && RecomputeAddress(Normalized(data.value, p), p).Success?
      && RecomputeAddress(Normalized(data.value, p), p).value != address
    ensures v.Unverified? <==> data.Some? && RecomputeAddress(Normalized(data.value, p), p).Failure?
    ensures Shown(v).Some? ==> Shown(v) == Some(Normalized(data.value, p))
  {
    match data
    case None => NotFound
    case Some(n) =>
      var clean := Normalized(n, p);
      match RecomputeAddress(clean, p)
      case Failure(e) => Unverified(clean, e)
      case Success(computed) => if computed != address then Mismatch(computed) else Verified(clean)
  }

  /** The listener with the evidently intended handling of a check that throws: the delivery is
      suppressed like a mismatch. */
  function ListenStrict(address: string, data: Option<RawNode>, p: Primitives): Verdict
  {
    match Listen(address, data, p)
    case Unverified(_, e) => Refused(e)
    case v => v
  }

  /** The corrected listener publishes a record exactly when it is the cleaned delivery and its
      content derives the address subscribed to. */
  lemma StrictPublishesOnlyVerified(address: string, data: Option<RawNode>, p: Primitives, r: CleanNode)
    ensures Shown(ListenStrict(address, data, p)) == Some(r) <==>
      data.Some? && r == Normalized(data.value, p) && RecomputeAddress(r, p) == Success(address)
  {
  }

  /** As written, a delivery whose `files` object holds a `null` is published under any address
      without its content being checked: `f.filename` throws and the catch falls through. */
  lemma NullEntryBypassesCheck(address: string, p: Primitives, description: string)
    ensures var forged := RawNode(None, None, Some(description),
                                  Structured(JObject([("x", NullValue)])), None, None, None);
      && Listen(address, Some(forged), p) == Unverified(Normalized(forged, p), NullFileEntry)
      && Shown(Listen(address, Some(forged), p)).Some?
      && Shown(ListenStrict(address, Some(forged), p)).None?
  {
    var forged := RawNode(None, None, Some(description), Structured(JObject([("x", NullValue)])), None, None, None);
    assert Values(Normalized(forged, p).files.entries) == [NullValue];
  }

  /** As written, a `files` string that parses to `null` is published under any address:
      `Object.values(null)` throws and the catch falls through. */
  lemma NullFilesBypassesCheck(address: string, p: Primitives, text: string, n: RawNode)
    requires n.files == Encoded(text) && p.decodeFiles(text) == Some(JNull)
    ensures Listen(address, Some(n), p) == Unverified(Normalized(n, p), ValuesOfNull)
    ensures Shown(ListenStrict(address, Some(n), p)).None?
  {
  }

  /** The hook's state for one address: `gist` and `loading`. */
  class GistSubscription {
    const address: string
    const prims: Primitives
    /** Whether the listener was registered (use-gist.ts:26-29 skip it without a store or id). */
    const subscribed: bool
    var gist: Option<CleanNode>
    var loading: bool

    constructor(gunReady: bool, id: Option<string>, prims: Primitives)
      ensures this.prims == prims && this.address == id.GetOr("")
      ensures subscribed == (gunReady && id.Some?)
      ensures gist == None && loading == subscribed
    {
      this.address := id.GetOr("");
      this.prims := prims;
      this.subscribed := gunReady && id.Some?;
      gist := None;
      loading := gunReady && id.Some?;
    }

    /** One run of the listener. The new state does not depend on the old one, so a tampered
        delivery does not stop a later valid one from being shown. */
    method Deliver(data: Option<RawNode>)
      requires subscribed
      modifies this
      ensures gist == Shown(Listen(address, data, prims))
      ensures !loading
    {
      if data.Some? {
        var n := data.value;
        var files: FilesJson;
        match n.files {
          case Encoded(text) =>
            var parsed := prims.decodeFiles(text);
            if parsed.Some? {
              files := parsed.value;
            } else {
              files := JObject([]);
            }
          case Structured(j) =>
            files := if j.JNull? then JObject([]) else j;
          case Missing =>
            files := JObject([]);
        }
        var cleanData := CleanNode(n.id, n.description, files, n.createdAt, n.updatedAt, n.owner);
        var computed := RecomputeAddress(cleanData, prims);
        if computed.Success? && computed.value != address {
          gist := None;
          loading := false;
          return;
        }
        gist := Some(cleanData);
      } else {
        gist := None;
      }
      loading := false;
    }
  }
}
