/**
 The consensus payload of a block (block.py): the recursive normaliser, the route from a block's
 attributes, and the route from the dictionary form of a block.
 */
module BlockPayload {
  import opened Wrappers
  import opened MediaBytes
  import opened Text
  import BoundedDecoding

  /** A Python value; a float or decimal is given by the text that `str` yields for it. */
  datatype Value =
    | Null
    | Bool(flag: bool)
    | Int(number: int)
    | Text(text: string)
    | Bytes(bytes: seq<Byte>)
    | Decimal(literal: string)
    | List(items: seq<Value>)
    | Dict(entries: map<string, Value>)
    | Unsupported

  /** `_normalize_decimal_string`, which may raise. */
  type Decimals = string -> Option<string>

  /** `int(value)` on a value that is neither a boolean nor an integer; it may raise. */
  type Integers = Value -> Option<int>

  /** `_normalize_protocol_v1_value` */
  function Normalize(v: Value, dec: Decimals): Option<Value>
  {
    match v
    case Null => Some(Null)
    case Bool(_) => Some(v)
    case Int(_) => Some(v)
    case Text(_) => Some(v)
    case Bytes(_) => Some(v)
    case Decimal(literal) => (match dec(literal) case None => None case Some(s) => Some(Text(s)))
    case List(items) =>
      if exists i :: 0 <= i < |items| && Normalize(items[i], dec).None? then None
      else Some(List(seq(|items|, i requires 0 <= i < |items| && Normalize(items[i], dec).Some? => Normalize(items[i], dec).value)))
    case Dict(entries) =>
      if exists k :: k in entries && Normalize(entries[k], dec).None? then None
      else Some(Dict(map k | k in entries && entries[k] != Null :: Normalize(entries[k], dec).value))
    case Unsupported => None
  }

  /** A value the normaliser leaves alone. */
  predicate Settled(v: Value)
  {
    match v
    case List(items) => forall i :: 0 <= i < |items| ==> Settled(items[i])
    case Dict(entries) => forall k :: k in entries ==> entries[k] != Null && Settled(entries[k])
    case Decimal(_) => false
    case Unsupported => false
    case _ => true
  }

  lemma {:induction false} NormalizedIsSettled(v: Value, dec: Decimals)
    requires Normalize(v, dec).Some?
    ensures Settled(Normalize(v, dec).value) && (Normalize(v, dec).value == Null <==> v == Null)
  {
    match v
    case List(items) =>
      forall i | 0 <= i < |items|
        ensures Normalize(items[i], dec).Some? && Settled(Normalize(items[i], dec).value)
      {
        assert Normalize(items[i], dec).Some?;
        NormalizedIsSettled(items[i], dec);
      }
    case Dict(entries) =>
      forall k | k in entries
        ensures Normalize(entries[k], dec).Some? && Settled(Normalize(entries[k], dec).value)
        ensures entries[k] != Null ==> Normalize(entries[k], dec).value != Null
      {
        assert Normalize(entries[k], dec).Some?;
        NormalizedIsSettled(entries[k], dec);
      }
    case _ =>
  }

  lemma {:induction false} SettledIsKept(v: Value, dec: Decimals)
    requires Settled(v)
    ensures Normalize(v, dec) == Some(v)
  {
    match v
    case List(items) =>
      forall i | 0 <= i < |items|
        ensures Normalize(items[i], dec) == Some(items[i])
      {
        SettledIsKept(items[i], dec);
      }
      assert Normalize(v, dec).value.items == items;
    case Dict(entries) =>
      forall k | k in entries
        ensures Normalize(entries[k], dec) == Some(entries[k])
      {
        SettledIsKept(entries[k], dec);
      }
      assert Normalize(v, dec).value.entries == entries;
    case _ =>
  }

  /** Normalising again changes nothing. */
  lemma NormalizeIsIdempotent(v: Value, dec: Decimals)
    requires Normalize(v, dec).Some?
    ensures Normalize(Normalize(v, dec).value, dec) == Normalize(v, dec)
  {
    NormalizedIsSettled(v, dec);
    SettledIsKept(Normalize(v, dec).value, dec);
  }

  // ----- Blocks ------------------------------------------------------------------------------------

  /** How a key is treated. The meme is only in the dictionary form, the meme's text only in the payload. */
  datatype Kind =
    | Required
    | Counter
    | Plain
    | Version
    | Transactions
    | Natives
    | Rewards
    | Media
    | ContentId
    | Certificate
    | Meme
    | MemeLine

  type Schema = map<string, Kind>

  /** The keys of the payload and of the dictionary form. */
  const SCHEMA: Schema :=
    map[
      "previous_hash" := Required, "miner" := Required, "submission_id" := Required, "certificate_id" := Required,
      "content_hash" := Required, "content_type" := Required, "mime_type" := Required, "media_hash" := Required,
      "creator_wallet" := Required, "vote_hash" := Required, "reward_type" := Required,
      "reward_recipient" := Required, "reward_source" := Required,
      "index" := Counter, "decisive_vote_total" := Counter, "minimum_votes_required" := Counter,
      "timestamp" := Plain, "approval_percentage" := Plain, "approved_at" := Plain, "originality_score" := Plain,
      "reward_amount" := Plain, "minted_at" := Plain, "transactions_hash" := Plain,
      "native_transactions" := Natives, "voter_rewards" := Rewards, "media_bytes" := Media,
      "admission_certificate" := Certificate, "block_version" := Version, "transactions" := Transactions,
      "content_id" := ContentId, "meme" := Meme, "meme_text" := MemeLine]

  /** The keys that a route looks up by name. */
  predicate Complete(schema: Schema)
  {
    && "block_version" in schema && schema["block_version"] == Version
    && "transactions" in schema && schema["transactions"] == Transactions
    && "content_id" in schema && schema["content_id"] == ContentId
    && "meme" in schema && schema["meme"] == Meme
    && "meme_text" in schema && schema["meme_text"] == MemeLine
  }

  lemma SchemaIsComplete()
    ensures Complete(SCHEMA)
  {
  }

  const ADMISSION_VERSION := 2

  type Row = map<string, Value>

  /** A block; `attributes` holds the attributes read by name, absent ones being None. */
  datatype Block = Block(
    version: Value,
    attributes: map<string, Value>,
    transactions: seq<Row>,
    natives: seq<Row>,
    rewards: seq<Row>,
    media: Option<seq<Byte>>,
    contentId: Value,
    meme: Value,
    certificate: Value)

  function Get(d: map<string, Value>, k: string): Value { if k in d then d[k] else Null }

  /** `_required_string` */
  function RequiredString(v: Value): Option<Value>
  {
    if v.Text? && Strip(v.text) != "" then Some(Text(Strip(v.text))) else None
  }

  /** `_required_non_negative_int` */
  function RequiredCount(v: Value, int_: Integers): Option<Value>
  {
    if v.Bool? then None
    else if v.Int? then (if v.number >= 0 then Some(v) else None)
    else match int_(v)
      case None => None
      case Some(n) => if n >= 0 then Some(Int(n)) else None
  }

  /** The fields of a legacy transaction that enter the payload. */
  function TransactionRow(tx: Row): Row
  {
    map["sender" := Get(tx, "sender"), "recipient" := Get(tx, "recipient"), "amount" := Get(tx, "amount"),
        "tip" := if "tip" in tx then tx["tip"] else Int(0),
        "payload_size_kb" := if "payload_size_kb" in tx then tx["payload_size_kb"] else Int(0),
        "signature" := Get(tx, "signature")]
  }

  function CheckedRow(tx: Row): Option<Value>
  {
    var sender, recipient := RequiredString(Get(tx, "sender")), RequiredString(Get(tx, "recipient"));
    if sender.None? || recipient.None? then None
    else Some(Dict(TransactionRow(tx)["sender" := sender.value]["recipient" := recipient.value]))
  }

  function CheckedRows(txs: seq<Row>): Option<seq<Value>>
  {
    if exists i :: 0 <= i < |txs| && CheckedRow(txs[i]).None? then None
    else Some(seq(|txs|, i requires 0 <= i < |txs| && CheckedRow(txs[i]).Some? => CheckedRow(txs[i]).value))
  }

  function Dicts(rows: seq<Row>): seq<Value> { seq(|rows|, i requires 0 <= i < |rows| => Dict(rows[i])) }

  function TransactionDicts(txs: seq<Row>): seq<Value>
  {
    seq(|txs|, i requires 0 <= i < |txs| => Dict(TransactionRow(txs[i])))
  }

  /** The meme's text when it has one. */
  function MemeText(meme: Value): Value
  {
    if meme.Dict? && Get(meme.entries, "text") != Text("") then Get(meme.entries, "text") else Null
  }

  /** `None` when the optional text is required to be a string and is not. */
  function OptionalString(v: Value): Option<Value> { if v == Null then Some(Null) else RequiredString(v) }

  predicate WellFormed(b: Block) { b.version in {Int(1), Int(ADMISSION_VERSION)} }

  /** The checks of the attribute route on the named attributes. */
  predicate CheckedValue(kind: Kind, v: Value, int_: Integers)
  {
    && (kind == Required ==> RequiredString(v).Some?)
    && (kind == Counter ==> RequiredCount(v, int_).Some?)
  }

  /** Its checks on everything else. */
  predicate CheckedLists(b: Block, dec: Decimals)
  {
    && b.media.Some?
    && CheckedRows(b.transactions).Some? && Normalize(List(CheckedRows(b.transactions).value), dec).Some?
    && Normalize(List(Dicts(b.natives)), dec).Some? && Normalize(List(Dicts(b.rewards)), dec).Some?
    && OptionalString(b.contentId).Some? && OptionalString(MemeText(b.meme)).Some?
    && (b.version == Int(ADMISSION_VERSION) ==> b.certificate.Dict?)
  }

  predicate Checked(b: Block, schema: Schema, dec: Decimals, int_: Integers)
  {
    CheckedLists(b, dec) && forall k :: k in schema ==> CheckedValue(schema[k], Get(b.attributes, k), int_)
  }

  /** The payload entry of each kind, `v` being the attribute named by the key; the lists are normalised already. */
  function AttributeEntry(b: Block, kind: Kind, v: Value, dec: Decimals, int_: Integers): Value
    requires CheckedLists(b, dec) && CheckedValue(kind, v, int_)
  {
    match kind
    case Required => RequiredString(v).value
    case Counter => RequiredCount(v, int_).value
    case Plain => v
    case Version => b.version
    case Transactions => Normalize(List(CheckedRows(b.transactions).value), dec).value
    case Natives => Normalize(List(Dicts(b.natives)), dec).value
    case Rewards => Normalize(List(Dicts(b.rewards)), dec).value
    case Media => Bytes(b.media.value)
    case ContentId => OptionalString(b.contentId).value
    case Certificate => if b.version == Int(ADMISSION_VERSION) then b.certificate else Null
    case MemeLine => OptionalString(MemeText(b.meme)).value
    case Meme => Null
  }

  /** An entry that the source does not set is None here, which normalisation drops. */
  function AttributePayload(b: Block, schema: Schema, dec: Decimals, int_: Integers): map<string, Value>
    requires Checked(b, schema, dec, int_)
  {
    map k | k in schema :: AttributeEntry(b, schema[k], Get(b.attributes, k), dec, int_)
  }

  /** `consensus_payload_v1` */
  function FromAttributes(b: Block, schema: Schema, dec: Decimals, int_: Integers): Option<Value>
    requires WellFormed(b)
  {
    if !Checked(b, schema, dec, int_) then None else Normalize(Dict(AttributePayload(b, schema, dec, int_)), dec)
  }

  // ----- The dictionary form --------------------------------------------------------------------------

  function EncodedBytes(raw: seq<Byte>): Value
  {
    Dict(map["$type" := Text("bytes"), "$encoding" := Text("hex"), "$value" := Text(BoundedDecoding.ToHex(raw))])
  }

  /** `_coerce_media_bytes` */
  function CoerceMedia(v: Value): Option<Value>
  {
    if v == Null || v.Bytes? then Some(v)
    else if !v.Dict? || v.entries.Keys != {"$type", "$encoding", "$value"} then None
    else if v.entries["$type"] != Text("bytes") || v.entries["$encoding"] != Text("hex") || !v.entries["$value"].Text? then None
    else
      var hex := v.entries["$value"].text;
      if |hex| % 2 != 0 || !BoundedDecoding.AllLowerHex(hex) then None else Some(Bytes(BoundedDecoding.FromHex(hex)))
  }

  /** The entry of `to_dict` of each kind; None stands for an entry left out. */
  function DictEntry(b: Block, kind: Kind, v: Value): Value
  {
    match kind
    case Required => v
    case Counter => v
    case Plain => v
    case Version => b.version
    case Transactions => List(Dicts(b.transactions))
    case Natives => if b.natives == [] then Null else List(Dicts(b.natives))
    case Rewards => if b.rewards == [] then Null else List(Dicts(b.rewards))
    case Media => if b.media.Some? then EncodedBytes(b.media.value) else Null
    case ContentId => b.contentId
    case Certificate => b.certificate
    case Meme => b.meme
    case MemeLine => Null
  }

  /** `to_dict`, as far as the payload reads it. */
  function ToDict(b: Block, schema: Schema): map<string, Value>
  {
    map k | k in schema && DictEntry(b, schema[k], Get(b.attributes, k)) != Null ::
      DictEntry(b, schema[k], Get(b.attributes, k))
  }

  predicate Falsy(v: Value)
  {
    v in [Null, Bool(false), Int(0), Text(""), Bytes([]), List([]), Dict(map[])]
  }

  /** The rows of `value or []`. */
  function Rows(v: Value): Option<seq<Row>>
  {
    if Falsy(v) then Some([])
    else if !v.List? || exists i :: 0 <= i < |v.items| && !v.items[i].Dict? then None
    else Some(seq(|v.items|, i requires 0 <= i < |v.items| && v.items[i].Dict? => v.items[i].entries))
  }

  /** Whether the dictionary route can read the entry at all. */
  predicate Readable(kind: Kind, v: Value)
  {
    match kind
    case Transactions => Rows(v).Some?
    case Natives => Rows(v).Some?
    case Rewards => Rows(v).Some?
    case Media => CoerceMedia(v).Some?
    case _ => true
  }

  /** The payload entry of each kind, `v` being the dictionary's entry; the version defaults to 1. */
  function PayloadEntry(d: map<string, Value>, kind: Kind, v: Value): Value
    requires Readable(kind, v)
  {
    match kind
    case Required => v
    case Counter => v
    case Plain => v
    case Version => if "block_version" in d then v else Int(1)
    case Transactions => List(TransactionDicts(Rows(v).value))
    case Natives => List(Dicts(Rows(v).value))
    case Rewards => List(Dicts(Rows(v).value))
    case Media => CoerceMedia(v).value
    case ContentId => v
    case Certificate => if Get(d, "block_version") == Int(ADMISSION_VERSION) then v else Null
    case MemeLine => MemeText(Get(d, "meme"))
    case Meme => Null
  }

  predicate AllReadable(d: map<string, Value>, schema: Schema)
  {
    forall k :: k in schema ==> Readable(schema[k], Get(d, k))
  }

  function DictPayload(d: map<string, Value>, schema: Schema): map<string, Value>
    requires AllReadable(d, schema)
  {
    map k | k in schema :: PayloadEntry(d, schema[k], Get(d, k))
  }

  /** `consensus_payload_v1_from_dict` */
  function FromDict(d: map<string, Value>, schema: Schema, dec: Decimals): Option<Value>
  {
    if !AllReadable(d, schema) then None else Normalize(Dict(DictPayload(d, schema)), dec)
  }
}
