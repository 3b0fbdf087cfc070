/**
 The two routes to a block's consensus payload agree exactly on blocks whose strings are trimmed and
 whose counters are integers.
 */
module BlockPayloadTheorems {
  import opened Wrappers
  import opened MediaBytes
  import opened Text
  import opened BlockPayload
  import BoundedDecoding

  // ----- When normalised trees are equal ---------------------------------------------------------------

  lemma DictsAgree(a: map<string, Value>, b: map<string, Value>, dec: Decimals)
    requires a.Keys == b.Keys && Normalize(Dict(a), dec).Some?
    ensures Normalize(Dict(b), dec) == Normalize(Dict(a), dec) <==>
              forall k :: k in a ==> Normalize(b[k], dec) == Normalize(a[k], dec)
  {
    forall k | k in a
      ensures Normalize(a[k], dec).Some? && (Normalize(a[k], dec).value == Null <==> a[k] == Null)
    {
      assert Normalize(a[k], dec).Some?;
      NormalizedIsSettled(a[k], dec);
    }
    if forall k :: k in a ==> Normalize(b[k], dec) == Normalize(a[k], dec) {
      EqualEntries(a, b, dec);
    }
    if Normalize(Dict(b), dec) == Normalize(Dict(a), dec) {
      forall k | k in a
        ensures Normalize(b[k], dec) == Normalize(a[k], dec)
      {
        EntryOfEqual(a, b, k, dec);
      }
    }
  }

  ghost predicate AllNormal(entries: map<string, Value>, dec: Decimals)
  {
    forall k :: k in entries ==> Normalize(entries[k], dec).Some?
  }

  ghost function NormalEntries(entries: map<string, Value>, dec: Decimals): map<string, Value>
    requires AllNormal(entries, dec)
  {
    map k | k in entries && entries[k] != Null :: Normalize(entries[k], dec).value
  }

  lemma NormalDict(entries: map<string, Value>, dec: Decimals)
    requires AllNormal(entries, dec)
    ensures Normalize(Dict(entries), dec) == Some(Dict(NormalEntries(entries, dec)))
  {
  }

  lemma EqualEntries(a: map<string, Value>, b: map<string, Value>, dec: Decimals)
    requires a.Keys == b.Keys && AllNormal(a, dec)
    requires forall k :: k in a ==> Normalize(b[k], dec) == Normalize(a[k], dec)
    ensures Normalize(Dict(b), dec) == Normalize(Dict(a), dec)
  {
    forall k | k in a
      ensures Normalize(b[k], dec).Some? && (b[k] == Null <==> a[k] == Null)
    {
      NormalizedIsSettled(a[k], dec);
      NormalizedIsSettled(b[k], dec);
    }
    NormalDict(a, dec);
    NormalDict(b, dec);
    assert NormalEntries(a, dec) == NormalEntries(b, dec);
  }

  lemma EntryOfEqual(a: map<string, Value>, b: map<string, Value>, k: string, dec: Decimals)
    requires a.Keys == b.Keys && k in a && Normalize(Dict(a), dec).Some?
    requires Normalize(Dict(b), dec) == Normalize(Dict(a), dec)
    ensures Normalize(b[k], dec) == Normalize(a[k], dec)
  {
    assert Normalize(a[k], dec).Some? && Normalize(b[k], dec).Some?;
    var x, y := Normalize(Dict(a), dec).value.entries, Normalize(Dict(b), dec).value.entries;
    assert k in x <==> a[k] != Null;
    assert k in y <==> b[k] != Null;
    assert k in x ==> x[k] == y[k];
  }

  lemma ListsAgree(a: seq<Value>, b: seq<Value>, dec: Decimals)
    requires |a| == |b| && Normalize(List(a), dec).Some?
    ensures Normalize(List(b), dec) == Normalize(List(a), dec) <==>
              forall i :: 0 <= i < |a| ==> Normalize(b[i], dec) == Normalize(a[i], dec)
  {
    assert forall i :: 0 <= i < |a| ==> Normalize(a[i], dec).Some?;
    if Normalize(List(b), dec) == Normalize(List(a), dec) {
      assert forall i :: 0 <= i < |a| ==> Normalize(b[i], dec).Some?;
      forall i | 0 <= i < |a|
        ensures Normalize(b[i], dec) == Normalize(a[i], dec)
      {
        assert Normalize(List(b), dec).value.items[i] == Normalize(List(a), dec).value.items[i];
      }
    }
    if forall i :: 0 <= i < |a| ==> Normalize(b[i], dec) == Normalize(a[i], dec) {
      assert Normalize(List(b), dec).Some?;
      assert Normalize(List(b), dec).value.items == Normalize(List(a), dec).value.items;
    }
  }

  // ----- Reading the dictionary form ------------------------------------------------------------------------

  lemma GetOfDict(b: Block, schema: Schema, k: string)
    requires k in schema
    ensures Get(ToDict(b, schema), k) == DictEntry(b, schema[k], Get(b.attributes, k))
    ensures k in ToDict(b, schema) <==> DictEntry(b, schema[k], Get(b.attributes, k)) != Null
  {
  }

  lemma RowsOfDicts(rows: seq<Row>)
    ensures Rows(List(Dicts(rows))) == Some(rows)
  {
    if rows == [] {
      assert List(Dicts(rows)) == List([]);
    } else {
      assert Rows(List(Dicts(rows))).value == rows;
    }
  }

  lemma MediaRoundTrip(raw: seq<Byte>)
    ensures CoerceMedia(EncodedBytes(raw)) == Some(Bytes(raw))
  {
    BoundedDecoding.HexRoundTrip(raw);
    var m := EncodedBytes(raw).entries;
    assert m["$type"] == Text("bytes") && m["$encoding"] == Text("hex") && m["$value"] == Text(BoundedDecoding.ToHex(raw));
  }

  /** The entries of the dictionary route, in terms of the block. */
  function DirectEntry(b: Block, kind: Kind, v: Value): Value
    requires b.media.Some?
  {
    match kind
    case Required => v
    case Counter => v
    case Plain => v
    case Version => b.version
    case Transactions => List(TransactionDicts(b.transactions))
    case Natives => List(Dicts(b.natives))
    case Rewards => List(Dicts(b.rewards))
    case Media => Bytes(b.media.value)
    case ContentId => b.contentId
    case Certificate => if b.version == Int(ADMISSION_VERSION) then b.certificate else Null
    case MemeLine => MemeText(b.meme)
    case Meme => Null
  }

  /** What each dictionary entry of a block contributes. */
  lemma EntryIsDirect(b: Block, d: map<string, Value>, kind: Kind, v: Value)
    requires WellFormed(b) && b.media.Some?
    requires "block_version" in d && d["block_version"] == b.version && Get(d, "meme") == b.meme
    ensures Readable(kind, DictEntry(b, kind, v))
    ensures PayloadEntry(d, kind, DictEntry(b, kind, v)) == DirectEntry(b, kind, v)
  {
    match kind
    case Transactions => RowsOfDicts(b.transactions);
    case Natives => RowsOfDicts(b.natives);
    case Rewards => RowsOfDicts(b.rewards);
    case Media => MediaRoundTrip(b.media.value);
    case _ =>
  }

  lemma DictHoldsVersion(b: Block, schema: Schema)
    requires WellFormed(b) && Complete(schema)
    ensures var d := ToDict(b, schema);
            "block_version" in d && d["block_version"] == b.version && Get(d, "meme") == b.meme
  {
    GetOfDict(b, schema, "block_version");
    GetOfDict(b, schema, "meme");
  }

  // ----- Where the routes differ -------------------------------------------------------------------------------

  predicate TrimmedText(v: Value) { v.Text? && Strip(v.text) == v.text }

  predicate TrimmedOrAbsent(v: Value) { v == Null || TrimmedText(v) }

  predicate TrimmedParties(tx: Row) { TrimmedText(Get(tx, "sender")) && TrimmedText(Get(tx, "recipient")) }

  /** Every string that the attribute route trims is trimmed already, and every counter is an integer. */
  predicate Unadorned(b: Block, schema: Schema)
  {
    && (forall k :: k in schema && schema[k] == Required ==> TrimmedText(Get(b.attributes, k)))
    && (forall k :: k in schema && schema[k] == Counter ==> Get(b.attributes, k).Int?)
    && (forall i :: 0 <= i < |b.transactions| ==> TrimmedParties(b.transactions[i]))
    && TrimmedOrAbsent(b.contentId) && TrimmedOrAbsent(MemeText(b.meme))
  }

  lemma StringAgrees(v: Value, dec: Decimals)
    requires RequiredString(v).Some?
    ensures Normalize(v, dec) == Normalize(RequiredString(v).value, dec) <==> TrimmedText(v)
  {
  }

  lemma CountAgrees(v: Value, dec: Decimals, int_: Integers)
    requires RequiredCount(v, int_).Some?
    ensures Normalize(v, dec) == Normalize(RequiredCount(v, int_).value, dec) <==> v.Int?
  {
  }

  lemma RowAgrees(tx: Row, dec: Decimals)
    requires CheckedRow(tx).Some? && Normalize(CheckedRow(tx).value, dec).Some?
    ensures Normalize(Dict(TransactionRow(tx)), dec) == Normalize(CheckedRow(tx).value, dec) <==> TrimmedParties(tx)
  {
    var raw, checked := TransactionRow(tx), CheckedRow(tx).value.entries;
    StringAgrees(Get(tx, "sender"), dec);
    StringAgrees(Get(tx, "recipient"), dec);
    TwoEntriesDiffer(raw, checked, dec);
  }

  lemma TwoEntriesDiffer(raw: Row, checked: Row, dec: Decimals)
    requires "sender" in raw && "recipient" in raw && Normalize(Dict(checked), dec).Some?
    requires "sender" in checked && "recipient" in checked
    requires checked == raw["sender" := checked["sender"]]["recipient" := checked["recipient"]]
    ensures Normalize(Dict(raw), dec) == Normalize(Dict(checked), dec) <==>
              Normalize(raw["sender"], dec) == Normalize(checked["sender"], dec) &&
              Normalize(raw["recipient"], dec) == Normalize(checked["recipient"], dec)
  {
    assert raw.Keys == checked.Keys;
    DictsAgree(checked, raw, dec);
    assert forall k :: k in checked && k != "sender" && k != "recipient" ==> raw[k] == checked[k];
  }

  lemma TransactionsAgree(txs: seq<Row>, dec: Decimals)
    requires CheckedRows(txs).Some? && Normalize(List(CheckedRows(txs).value), dec).Some?
    ensures Normalize(List(TransactionDicts(txs)), dec) == Normalize(List(CheckedRows(txs).value), dec) <==>
              forall i :: 0 <= i < |txs| ==> TrimmedParties(txs[i])
  {
    var raw, checked := TransactionDicts(txs), CheckedRows(txs).value;
    ListsAgree(checked, raw, dec);
    forall i | 0 <= i < |txs|
      ensures Normalize(raw[i], dec) == Normalize(checked[i], dec) <==> TrimmedParties(txs[i])
    {
      assert CheckedRow(txs[i]).Some? && checked[i] == CheckedRow(txs[i]).value;
      assert Normalize(checked[i], dec).Some?;
      RowAgrees(txs[i], dec);
    }
  }

  /** Whether the entry under one key comes out the same on both routes. */
  predicate KindAgrees(b: Block, kind: Kind, v: Value)
  {
    match kind
    case Required => TrimmedText(v)
    case Counter => v.Int?
    case Transactions => forall i :: 0 <= i < |b.transactions| ==> TrimmedParties(b.transactions[i])
    case ContentId => TrimmedOrAbsent(b.contentId)
    case MemeLine => TrimmedOrAbsent(MemeText(b.meme))
    case _ => true
  }

  lemma OptionalAgrees(v: Value, dec: Decimals)
    requires OptionalString(v).Some?
    ensures Normalize(v, dec) == Normalize(OptionalString(v).value, dec) <==> TrimmedOrAbsent(v)
  {
    if v != Null {
      StringAgrees(v, dec);
    }
  }

  lemma EntryAgrees(b: Block, kind: Kind, v: Value, dec: Decimals, int_: Integers)
    requires CheckedLists(b, dec) && CheckedValue(kind, v, int_)
    ensures Normalize(DirectEntry(b, kind, v), dec) == Normalize(AttributeEntry(b, kind, v, dec, int_), dec) <==>
              KindAgrees(b, kind, v)
  {
    match kind
    case Required => StringAgrees(v, dec);
    case Counter => CountAgrees(v, dec, int_);
    case Transactions =>
      TransactionsAgree(b.transactions, dec);
      NormalizeIsIdempotent(List(CheckedRows(b.transactions).value), dec);
    case Natives => NormalizeIsIdempotent(List(Dicts(b.natives)), dec);
    case Rewards => NormalizeIsIdempotent(List(Dicts(b.rewards)), dec);
    case ContentId => OptionalAgrees(b.contentId, dec);
    case MemeLine => OptionalAgrees(MemeText(b.meme), dec);
    case _ =>
  }

  lemma AllKindsAgree(b: Block, schema: Schema)
    requires Complete(schema)
    ensures (forall k :: k in schema ==> KindAgrees(b, schema[k], Get(b.attributes, k))) <==> Unadorned(b, schema)
  {
    if forall k :: k in schema ==> KindAgrees(b, schema[k], Get(b.attributes, k)) {
      assert KindAgrees(b, schema["transactions"], Get(b.attributes, "transactions"));
      assert KindAgrees(b, schema["content_id"], Get(b.attributes, "content_id"));
      assert KindAgrees(b, schema["meme_text"], Get(b.attributes, "meme_text"));
    }
  }

  lemma ReadsDirectly(b: Block, schema: Schema, k: string)
    requires WellFormed(b) && b.media.Some? && Complete(schema) && k in schema
    ensures var d := ToDict(b, schema);
            && Readable(schema[k], Get(d, k))
            && PayloadEntry(d, schema[k], Get(d, k)) == DirectEntry(b, schema[k], Get(b.attributes, k))
  {
    GetOfDict(b, schema, k);
    DictHoldsVersion(b, schema);
    EntryIsDirect(b, ToDict(b, schema), schema[k], Get(b.attributes, k));
  }

  lemma KeyAgrees(b: Block, schema: Schema, k: string, dec: Decimals, int_: Integers)
    requires WellFormed(b) && Complete(schema) && k in schema
    requires CheckedLists(b, dec) && CheckedValue(schema[k], Get(b.attributes, k), int_)
    ensures var d, v := ToDict(b, schema), Get(b.attributes, k);
            && Readable(schema[k], Get(d, k))
            && (Normalize(PayloadEntry(d, schema[k], Get(d, k)), dec) == Normalize(AttributeEntry(b, schema[k], v, dec, int_), dec)
                <==> KindAgrees(b, schema[k], v))
  {
    ReadsDirectly(b, schema, k);
    EntryAgrees(b, schema[k], Get(b.attributes, k), dec, int_);
  }

  lemma RoutesAgreeOver(b: Block, schema: Schema, dec: Decimals, int_: Integers)
    requires WellFormed(b) && Complete(schema) && FromAttributes(b, schema, dec, int_).Some?
    ensures FromDict(ToDict(b, schema), schema, dec) == FromAttributes(b, schema, dec, int_) <==> Unadorned(b, schema)
  {
    DictIsReadable(b, schema);
    var x, y := AttributePayload(b, schema, dec, int_), DictPayload(ToDict(b, schema), schema);
    EntriesAgree(b, schema, x, y, dec, int_);
    PayloadsAgree(b, schema, x, y, dec);
  }

  /** The entries under one key agree exactly when their kind says so. */
  predicate AgreesAt(b: Block, schema: Schema, x: map<string, Value>, y: map<string, Value>, k: string, dec: Decimals)
    requires k in schema && x.Keys == schema.Keys == y.Keys
  {
    Normalize(y[k], dec) == Normalize(x[k], dec) <==> KindAgrees(b, schema[k], Get(b.attributes, k))
  }

  lemma EntryAgreesAt(b: Block, schema: Schema, x: map<string, Value>, y: map<string, Value>, k: string, dec: Decimals,
                      int_: Integers)
    requires WellFormed(b) && Complete(schema) && Checked(b, schema, dec, int_) && AllReadable(ToDict(b, schema), schema)
    requires x == AttributePayload(b, schema, dec, int_) && y == DictPayload(ToDict(b, schema), schema)
    requires k in schema
    ensures x.Keys == schema.Keys == y.Keys && AgreesAt(b, schema, x, y, k, dec)
  {
    KeyAgrees(b, schema, k, dec, int_);
  }

  /** All entries agree where their kinds say so. */
  ghost predicate AllAgree(b: Block, schema: Schema, x: map<string, Value>, y: map<string, Value>, dec: Decimals)
  {
    x.Keys == schema.Keys == y.Keys && forall k :: k in schema ==> AgreesAt(b, schema, x, y, k, dec)
  }

  lemma EntriesAgree(b: Block, schema: Schema, x: map<string, Value>, y: map<string, Value>, dec: Decimals, int_: Integers)
    requires WellFormed(b) && Complete(schema) && Checked(b, schema, dec, int_) && AllReadable(ToDict(b, schema), schema)
    requires x == AttributePayload(b, schema, dec, int_) && y == DictPayload(ToDict(b, schema), schema)
    ensures AllAgree(b, schema, x, y, dec)
  {
    forall k | k in schema
      ensures x.Keys == schema.Keys == y.Keys && AgreesAt(b, schema, x, y, k, dec)
    {
      EntryAgreesAt(b, schema, x, y, k, dec, int_);
    }
  }

  lemma DictIsReadable(b: Block, schema: Schema)
    requires WellFormed(b) && b.media.Some? && Complete(schema)
    ensures AllReadable(ToDict(b, schema), schema)
  {
    forall k | k in schema
      ensures Readable(schema[k], Get(ToDict(b, schema), k))
    {
      ReadsDirectly(b, schema, k);
    }
  }

  lemma PayloadsAgree(b: Block, schema: Schema, x: map<string, Value>, y: map<string, Value>, dec: Decimals)
    requires Complete(schema) && AllAgree(b, schema, x, y, dec) && Normalize(Dict(x), dec).Some?
    ensures Normalize(Dict(y), dec) == Normalize(Dict(x), dec) <==> Unadorned(b, schema)
  {
    assert forall k :: k in schema ==> AgreesAt(b, schema, x, y, k, dec) ==>
      (Normalize(y[k], dec) == Normalize(x[k], dec) <==> KindAgrees(b, schema[k], Get(b.attributes, k)));
    DictsAgree(x, y, dec);
    AllKindsAgree(b, schema);
  }

  /**
   The two routes give the same tree exactly on unadorned blocks: the dictionary route neither trims strings
   nor turns counters into integers.
   */
  lemma RoutesAgree(b: Block, dec: Decimals, int_: Integers)
    requires WellFormed(b) && FromAttributes(b, SCHEMA, dec, int_).Some?
    ensures FromDict(ToDict(b, SCHEMA), SCHEMA, dec) == FromAttributes(b, SCHEMA, dec, int_) <==> Unadorned(b, SCHEMA)
  {
    SchemaIsComplete();
    RoutesAgreeOver(b, SCHEMA, dec, int_);
  }

  // ----- Blocks on which they differ --------------------------------------------------------------------

  /** A bare block: a mark in each required string, zero in each counter, and `v` under one key. */
  function BareBlock(key: string, v: Value): Block
  {
    Block(Int(1),
          map k | k in SCHEMA && (SCHEMA[k] == Required || SCHEMA[k] == Counter) ::
            if k == key then v else if SCHEMA[k] == Required then Text("x") else Int(0),
          [], [], [], Some([]), Null, Null, Null)
  }

  lemma BareListsPass(key: string, v: Value, dec: Decimals)
    ensures CheckedLists(BareBlock(key, v), dec)
  {
    var b := BareBlock(key, v);
    assert CheckedRows(b.transactions).value == [];
    assert Dicts(b.natives) == [] && Dicts(b.rewards) == [];
  }

  lemma BareEntryPasses(key: string, v: Value, k: string, dec: Decimals, int_: Integers)
    requires k in SCHEMA && key in SCHEMA && CheckedValue(SCHEMA[key], v, int_)
    requires SCHEMA[key] == Required || SCHEMA[key] == Counter
    ensures CheckedLists(BareBlock(key, v), dec)
    ensures CheckedValue(SCHEMA[k], Get(BareBlock(key, v).attributes, k), int_)
    ensures Normalize(AttributeEntry(BareBlock(key, v), SCHEMA[k], Get(BareBlock(key, v).attributes, k), dec, int_), dec).Some?
  {
    BareListsPass(key, v, dec);
    TrimmedIsStripped("x");
    var b := BareBlock(key, v);
    assert CheckedRows(b.transactions).value == [];
    assert Dicts(b.natives) == [] && Dicts(b.rewards) == [];
  }

  lemma BareBlockIsChecked(key: string, v: Value, dec: Decimals, int_: Integers)
    requires key in SCHEMA && CheckedValue(SCHEMA[key], v, int_)
    requires SCHEMA[key] == Required || SCHEMA[key] == Counter
    ensures Checked(BareBlock(key, v), SCHEMA, dec, int_)
  {
    BareListsPass(key, v, dec);
    forall k | k in SCHEMA ensures CheckedValue(SCHEMA[k], Get(BareBlock(key, v).attributes, k), int_) {
      BareEntryPasses(key, v, k, dec, int_);
    }
  }

  lemma BareBlockPasses(key: string, v: Value, dec: Decimals, int_: Integers)
    requires key in SCHEMA && CheckedValue(SCHEMA[key], v, int_)
    requires SCHEMA[key] == Required || SCHEMA[key] == Counter
    ensures FromAttributes(BareBlock(key, v), SCHEMA, dec, int_).Some?
  {
    var b := BareBlock(key, v);
    BareBlockIsChecked(key, v, dec, int_);
    var payload := AttributePayload(b, SCHEMA, dec, int_);
    forall k | k in payload ensures Normalize(payload[k], dec).Some? {
      BareEntryPasses(key, v, k, dec, int_);
    }
    NormalDict(payload, dec);
  }

  /** A miner written with a leading space: both routes succeed, and they disagree. */
  lemma PaddedMinerDiffers(dec: Decimals, int_: Integers)
    ensures var b := BareBlock("miner", Text(" m"));
            && FromAttributes(b, SCHEMA, dec, int_).Some?
            && FromDict(ToDict(b, SCHEMA), SCHEMA, dec) != FromAttributes(b, SCHEMA, dec, int_)
  {
    var b := BareBlock("miner", Text(" m"));
    TrimmedIsStripped("m");
    assert " m"[1..] == "m" && Strip(" m") == "m";
    assert "miner" in SCHEMA && SCHEMA["miner"] == Required;
    BareBlockPasses("miner", Text(" m"), dec, int_);
    assert Get(b.attributes, "miner") == Text(" m");
    RoutesAgree(b, dec, int_);
  }

  /** A height written as text that reads as 7. */
  lemma TextCounterDiffers(dec: Decimals, int_: Integers)
    requires int_(Text("7")) == Some(7)
    ensures var b := BareBlock("index", Text("7"));
            && FromAttributes(b, SCHEMA, dec, int_).Some?
            && FromDict(ToDict(b, SCHEMA), SCHEMA, dec) != FromAttributes(b, SCHEMA, dec, int_)
  {
    var b := BareBlock("index", Text("7"));
    assert "index" in SCHEMA && SCHEMA["index"] == Counter;
    BareBlockPasses("index", Text("7"), dec, int_);
    assert Get(b.attributes, "index") == Text("7");
    RoutesAgree(b, dec, int_);
  }
}
