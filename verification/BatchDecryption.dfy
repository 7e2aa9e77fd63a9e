/** Decrypting many compact texts at once, and whole response payloads.
    Base64 decoding, key unwrapping and AES-GCM are functions supplied by the caller; the
    latter two give nothing where the original would throw. */
module BatchDecryption {
  import opened Prelude
  import opened EncryptedText

  type Bytes = seq<nat>

  datatype Crypto = Crypto(fromBase64: string -> Bytes,
                           unwrap: (Bytes, string) -> Option<Bytes>,
                           decrypt: (Bytes, Bytes, Bytes, Bytes) -> Option<string>)

  const WHITESPACE := " \t\n\r"

  predicate IsBlank(s: string) {
    forall i :: 0 <= i < |s| ==> s[i] in WHITESPACE
  }

  /** Decrypt with a given data key. */
  function OpenWith(c: Crypto, p: Parsed, key: Option<Bytes>): Option<string> {
    match key
    case None => None
    case Some(k) => c.decrypt(c.fromBase64(p.ciphertext), c.fromBase64(p.iv), c.fromBase64(p.tag), k)
  }

  function UnwrapFor(c: Crypto, wrappedKey: string, keyId: string): Option<Bytes> {
    c.unwrap(c.fromBase64(wrappedKey), keyId)
  }

  /** The one-at-a-time form. */
  function DecryptText(c: Crypto, value: Option<string>): Option<string> {
    if value.None? || IsBlank(value.value) || !IsEncryptedText(value.value) then None
    else
      match Parse(value.value)
      case None => None
      case Some(p) => OpenWith(c, p, UnwrapFor(c, p.wrappedKey, p.keyId))
  }

  /** What encryption produces, before it is written out as text. */
  datatype Sealed = Sealed(keyId: string, iv: Bytes, tag: Bytes, wrappedKey: Bytes, ciphertext: Bytes)

  function EncryptText(toBase64: Bytes -> string, e: Sealed): string {
    Print(Parsed(e.keyId, toBase64(e.iv), toBase64(e.tag), toBase64(e.wrappedKey), toBase64(e.ciphertext)))
  }

  /** Base64 decodes what it encoded, and its alphabet has no colon. */
  ghost predicate IsBase64(toBase64: Bytes -> string, fromBase64: string -> Bytes) {
    forall b: Bytes :: NoColon(toBase64(b)) && fromBase64(toBase64(b)) == b
  }

  /** The text decrypts to whatever the sealed parts open to, for every key id: nothing is
      lost or swapped between writing and reading. */
  lemma DecryptEncrypt(c: Crypto, toBase64: Bytes -> string, e: Sealed)
    requires IsBase64(toBase64, c.fromBase64)
    ensures DecryptText(c, Some(EncryptText(toBase64, e)))
         == match c.unwrap(e.wrappedKey, e.keyId)
            case None => None
            case Some(key) => c.decrypt(e.ciphertext, e.iv, e.tag, key)
  {
    var p := Parsed(e.keyId, toBase64(e.iv), toBase64(e.tag), toBase64(e.wrappedKey), toBase64(e.ciphertext));
    var text := EncryptText(toBase64, e);
    assert NoColon(p.iv) && c.fromBase64(p.iv) == e.iv;
    assert NoColon(p.tag) && c.fromBase64(p.tag) == e.tag;
    assert NoColon(p.wrappedKey) && c.fromBase64(p.wrappedKey) == e.wrappedKey;
    assert NoColon(p.ciphertext) && c.fromBase64(p.ciphertext) == e.ciphertext;
    ParsePrint(p);
    assert IsEncryptedText(text);
    assert text[0] == 'e' && !IsBlank(text);
  }

  /** Nothing that is not a printed encryption is passed through: no text at all, plain text
      and malformed text alike give nothing. */
  lemma OnlyPrintedTextsDecrypt(c: Crypto, value: Option<string>)
    ensures DecryptText(c, value).Some? ==> value.Some? && IsPrinted(value.value)
  {
    if value.Some? {
      ParseAcceptsExactly(value.value);
    }
  }

  // ---- The batch ----

  function Composite(p: Parsed): string {
    p.keyId + ":::" + p.wrappedKey
  }

  lemma ColonFreeTailIsShorter(x: string, w: string, y: string, v: string)
    requires NoColon(v) && x + ":" + w == y + ":" + v
    ensures |v| <= |w|
  {
    var s := x + ":" + w;
    assert s[|x|] == ':';
    forall i | |y| < i < |s| ensures s[i] != ':' {
      assert (y + ":" + v)[i] == v[i - |y| - 1];
    }
  }

  /** The composite key is injective on what the parser returns: the wrapped key holds no
      colon, so it is what follows the last one. */
  lemma CompositeInjective(p: Parsed, q: Parsed)
    requires NoColon(p.wrappedKey) && NoColon(q.wrappedKey) && Composite(p) == Composite(q)
    ensures p.wrappedKey == q.wrappedKey && p.keyId == q.keyId
  {
    var s := Composite(p);
    var x, y := p.keyId + "::", q.keyId + "::";
    assert s == x + ":" + p.wrappedKey && s == y + ":" + q.wrappedKey;
    ColonFreeTailIsShorter(x, p.wrappedKey, y, q.wrappedKey);
    ColonFreeTailIsShorter(y, q.wrappedKey, x, p.wrappedKey);
    var n := |s| - |p.wrappedKey|;
    assert p.wrappedKey == s[n..] && q.wrappedKey == s[n..];
    assert p.keyId == s[..n - 3] && q.keyId == s[..n - 3];
  }

  /** A value the batch takes up. */
  predicate IsUsable(value: Option<string>) {
    value.Some? && !IsBlank(value.value) && IsEncryptedText(value.value) && Parse(value.value).Some?
  }

  /** The distinct data keys the first `n` values need. */
  function KeysNeeded(values: seq<Option<string>>, n: nat): set<string>
    requires n <= |values|
  {
    set i | 0 <= i < n && IsUsable(values[i]) :: Composite(Parse(values[i].value).value)
  }

  datatype Item = Item(index: nat, parsed: Parsed, composite: string)

  datatype KeyRef = KeyRef(wrappedKey: string, keyId: string)

  /** The items of the first `n` values, in order. */
  function ItemsOf(values: seq<Option<string>>, n: nat): seq<Item>
    requires n <= |values|
  {
    if n == 0 then []
    else if !IsUsable(values[n - 1]) then ItemsOf(values, n - 1)
    else
      var p := Parse(values[n - 1].value).value;
      ItemsOf(values, n - 1) + [Item(n - 1, p, Composite(p))]
  }

  /** The key reference noted for each composite of the first `n` values: the first one met. */
  function KeyTable(values: seq<Option<string>>, n: nat): map<string, KeyRef>
    requires n <= |values|
  {
    if n == 0 then map[]
    else
      var before := KeyTable(values, n - 1);
      if !IsUsable(values[n - 1]) then before
      else
        var p := Parse(values[n - 1].value).value;
        if Composite(p) in before then before else before[Composite(p) := KeyRef(p.wrappedKey, p.keyId)]
  }

  ghost predicate ItemOk(values: seq<Option<string>>, item: Item) {
    && item.index < |values| && IsUsable(values[item.index])
    && item.parsed == Parse(values[item.index].value).value
    && item.composite == Composite(item.parsed)
  }

  ghost predicate KeyOk(values: seq<Option<string>>, composite: string, key: KeyRef) {
    exists i :: 0 <= i < |values| && IsUsable(values[i]) && composite == Composite(Parse(values[i].value).value)
                && key == KeyRef(Parse(values[i].value).value.wrappedKey, Parse(values[i].value).value.keyId)
  }

  lemma {:induction false} ItemsAreSound(values: seq<Option<string>>, n: nat)
    requires n <= |values|
    ensures forall item :: item in ItemsOf(values, n) ==> ItemOk(values, item)
  {
    if n > 0 {
      ItemsAreSound(values, n - 1);
    }
  }

  lemma {:induction false} EveryUsableValueIsAnItem(values: seq<Option<string>>, n: nat, i: nat)
    requires i < n <= |values| && IsUsable(values[i])
    ensures exists item :: item in ItemsOf(values, n) && item.index == i
  {
    if i < n - 1 {
      EveryUsableValueIsAnItem(values, n - 1, i);
      var item :| item in ItemsOf(values, n - 1) && item.index == i;
      assert item in ItemsOf(values, n);
    } else {
      var p := Parse(values[i].value).value;
      assert Item(i, p, Composite(p)) in ItemsOf(values, n);
    }
  }

  lemma {:induction false} TableIsSound(values: seq<Option<string>>, n: nat)
    requires n <= |values|
    ensures forall x :: x in KeyTable(values, n) ==> KeyOk(values, x, KeyTable(values, n)[x])
  {
    if n > 0 {
      TableIsSound(values, n - 1);
    }
  }

  /** One entry for each distinct data key. */
  lemma {:induction false} TableHoldsKeysNeeded(values: seq<Option<string>>, n: nat)
    requires n <= |values|
    ensures KeyTable(values, n).Keys == KeysNeeded(values, n)
  {
    if n > 0 {
      TableHoldsKeysNeeded(values, n - 1);
      var last := if IsUsable(values[n - 1]) then {Composite(Parse(values[n - 1].value).value)} else {};
      assert KeysNeeded(values, n) == KeysNeeded(values, n - 1) + last;
    }
  }

  /** First pass: parse, and note each distinct data key once. */
  method Gather(values: seq<Option<string>>) returns (items: seq<Item>, keys: map<string, KeyRef>)
    ensures items == ItemsOf(values, |values|) && keys == KeyTable(values, |values|)
  {
    items, keys := [], map[];
    for i := 0 to |values|
      invariant items == ItemsOf(values, i) && keys == KeyTable(values, i)
    {
      var value := values[i];
      if value.Some? && !IsBlank(value.value) && IsEncryptedText(value.value) {
        var parsed := Parse(value.value);
        if parsed.Some? {
          var composite := Composite(parsed.value);
          items := items + [Item(i, parsed.value, composite)];
          if composite !in keys {
            keys := keys[composite := KeyRef(parsed.value.wrappedKey, parsed.value.keyId)];
          }
        }
      }
    }
  }

  /** Second pass: unwrap each distinct key once, in any order. */
  method UnwrapKeys(c: Crypto, keys: map<string, KeyRef>) returns (unwrapped: map<string, Option<Bytes>>, calls: nat)
    ensures Unwrapped(c, keys, unwrapped)
    ensures calls == |keys.Keys|
  {
    unwrapped, calls := map[], 0;
    var left := keys.Keys;
    while left != {}
      invariant left <= keys.Keys && unwrapped.Keys == keys.Keys - left
      invariant forall x :: x in unwrapped ==> unwrapped[x] == UnwrapFor(c, keys[x].wrappedKey, keys[x].keyId)
      invariant calls + |left| == |keys.Keys|
      decreases left
    {
      var x :| x in left;
      unwrapped := unwrapped[x := c.unwrap(c.fromBase64(keys[x].wrappedKey), keys[x].keyId)];
      calls := calls + 1;
      left := left - {x};
    }
  }

  /** The key reference kept for a composite is the item's own. */
  lemma SharedKeyIsOwnKey(values: seq<Option<string>>, item: Item, key: KeyRef)
    requires ItemOk(values, item) && KeyOk(values, item.composite, key)
    ensures key == KeyRef(item.parsed.wrappedKey, item.parsed.keyId)
  {
    var i :| 0 <= i < |values| && IsUsable(values[i]) && item.composite == Composite(Parse(values[i].value).value)
             && key == KeyRef(Parse(values[i].value).value.wrappedKey, Parse(values[i].value).value.keyId);
    PrintParse(values[i].value);
    PrintParse(values[item.index].value);
    CompositeInjective(item.parsed, Parse(values[i].value).value);
  }

  /** So the key unwrapped for the composite opens the item as its own key would. */
  ghost predicate KeyFits(c: Crypto, values: seq<Option<string>>, item: Item, unwrapped: map<string, Option<Bytes>>) {
    && item.index < |values| && item.composite in unwrapped
    && DecryptText(c, values[item.index]) == OpenWith(c, item.parsed, unwrapped[item.composite])
  }

  lemma SharedKeyFits(c: Crypto, values: seq<Option<string>>, item: Item, key: KeyRef, unwrapped: map<string, Option<Bytes>>)
    requires ItemOk(values, item) && KeyOk(values, item.composite, key)
    requires item.composite in unwrapped && unwrapped[item.composite] == UnwrapFor(c, key.wrappedKey, key.keyId)
    ensures KeyFits(c, values, item, unwrapped)
  {
    SharedKeyIsOwnKey(values, item, key);
  }

  ghost predicate Unwrapped(c: Crypto, keys: map<string, KeyRef>, unwrapped: map<string, Option<Bytes>>) {
    && unwrapped.Keys == keys.Keys
    && forall x :: x in keys ==> unwrapped[x] == UnwrapFor(c, keys[x].wrappedKey, keys[x].keyId)
  }

  lemma UnwrappedKeysFit(c: Crypto, values: seq<Option<string>>, unwrapped: map<string, Option<Bytes>>)
    requires Unwrapped(c, KeyTable(values, |values|), unwrapped)
    ensures forall item :: item in ItemsOf(values, |values|) ==> KeyFits(c, values, item, unwrapped)
  {
    var keys := KeyTable(values, |values|);
    ItemsAreSound(values, |values|);
    TableIsSound(values, |values|);
    TableHoldsKeysNeeded(values, |values|);
    forall item | item in ItemsOf(values, |values|) ensures KeyFits(c, values, item, unwrapped) {
      ItemNeedsItsKey(values, item);
      SharedKeyFits(c, values, item, keys[item.composite], unwrapped);
    }
  }

  lemma ItemNeedsItsKey(values: seq<Option<string>>, item: Item)
    requires ItemOk(values, item)
    ensures item.composite in KeysNeeded(values, |values|)
  {
  }

  /** Third pass: open every item with the key unwrapped for its composite. */
  method OpenItems(c: Crypto, ghost values: seq<Option<string>>, items: seq<Item>, unwrapped: map<string, Option<Bytes>>,
                   blank: seq<Option<string>>) returns (results: seq<Option<string>>)
    requires |blank| == |values| && forall item :: item in items ==> KeyFits(c, values, item, unwrapped)
    ensures |results| == |values|
    ensures forall i :: 0 <= i < |results| ==> results[i] == blank[i] || results[i] == DecryptText(c, values[i])
    ensures forall k :: 0 <= k < |items| ==> items[k].index < |results|
                                             && results[items[k].index] == DecryptText(c, values[items[k].index])
  {
    results := blank;
    for k := 0 to |items|
      invariant |results| == |values|
      invariant forall i :: 0 <= i < |results| ==> results[i] == blank[i] || results[i] == DecryptText(c, values[i])
      invariant forall j :: 0 <= j < k ==> items[j].index < |results|
                                           && results[items[j].index] == DecryptText(c, values[items[j].index])
    {
      var item := items[k];
      assert KeyFits(c, values, item, unwrapped);
      var dataKey := unwrapped[item.composite];
      if dataKey.None? {
        results := results[item.index := None];
      } else {
        results := results[item.index := c.decrypt(c.fromBase64(item.parsed.ciphertext), c.fromBase64(item.parsed.iv),
                                                   c.fromBase64(item.parsed.tag), dataKey.value)];
      }
    }
  }

  /** The batch gives each value what decrypting it alone would give, and asks for each
      distinct data key exactly once. */
  method DecryptBatch(c: Crypto, values: seq<Option<string>>) returns (results: seq<Option<string>>, unwraps: nat)
    ensures |results| == |values|
    ensures forall i :: 0 <= i < |values| ==> results[i] == DecryptText(c, values[i])
    ensures unwraps == |KeysNeeded(values, |values|)|
  {
    results, unwraps := seq(|values|, _ => None), 0;
    var items, keys := Gather(values);
    TableHoldsKeysNeeded(values, |values|);
    if |items| > 0 {
      var unwrapped;
      unwrapped, unwraps := UnwrapKeys(c, keys);
      UnwrappedKeysFit(c, values, unwrapped);
      results := OpenItems(c, values, items, unwrapped, results);
    } else {
      NoItemsNoKeys(values, |values|);
    }
    forall i | 0 <= i < |values| && IsUsable(values[i]) ensures results[i] == DecryptText(c, values[i]) {
      EveryUsableValueIsAnItem(values, |values|, i);
    }
  }

  lemma {:induction false} NoItemsNoKeys(values: seq<Option<string>>, n: nat)
    requires n <= |values| && ItemsOf(values, n) == []
    ensures KeyTable(values, n) == map[]
  {
    if n > 0 {
      NoItemsNoKeys(values, n - 1);
    }
  }

  // ---- Payloads ----

  /** A response value; Opaque stands for numbers, booleans, dates, patterns and buffers. */
  datatype Payload =
    | Null
    | Undefined
    | Text(text: string)
    | Opaque(id: int)
    | Arr(items: seq<Payload>)
    | Obj(fields: seq<Field>)

  datatype Field = Field(key: string, value: Payload)

  /** Every encrypted string of the tree replaced by its plaintext, or null. */
  function Decrypted(c: Crypto, data: Payload): Payload {
    match data
    case Text(s) =>
      if !IsEncryptedText(s) then data
      else (match DecryptText(c, Some(s)) case Some(t) => Text(t) case None => Null)
    case Arr(items) => Arr(DecryptedItems(c, items))
    case Obj(fields) => Obj(DecryptedFields(c, fields))
    case _ => data
  }

  function DecryptedItems(c: Crypto, items: seq<Payload>): seq<Payload> {
    if items == [] then [] else [Decrypted(c, items[0])] + DecryptedItems(c, items[1..])
  }

  function DecryptedFields(c: Crypto, fields: seq<Field>): seq<Field> {
    if fields == [] then [] else [Field(fields[0].key, Decrypted(c, fields[0].value))] + DecryptedFields(c, fields[1..])
  }

  /** The encrypted strings of the tree, in the order of the traversal. */
  function Strings(data: Payload): seq<string> {
    match data
    case Text(s) => if IsEncryptedText(s) then [s] else []
    case Arr(items) => StringsOfItems(items)
    case Obj(fields) => StringsOfFields(fields)
    case _ => []
  }

  function StringsOfItems(items: seq<Payload>): seq<string> {
    if items == [] then [] else Strings(items[0]) + StringsOfItems(items[1..])
  }

  function StringsOfFields(fields: seq<Field>): seq<string> {
    if fields == [] then [] else Strings(fields[0].value) + StringsOfFields(fields[1..])
  }

  /** Replace whatever the table knows. */
  function Replace(data: Payload, lookup: map<string, Option<string>>): Payload {
    match data
    case Text(s) =>
      if s in lookup then (match lookup[s] case Some(t) => Text(t) case None => Null) else data
    case Arr(items) => Arr(ReplaceItems(items, lookup))
    case Obj(fields) => Obj(ReplaceFields(fields, lookup))
    case _ => data
  }

  function ReplaceItems(items: seq<Payload>, lookup: map<string, Option<string>>): seq<Payload> {
    if items == [] then [] else [Replace(items[0], lookup)] + ReplaceItems(items[1..], lookup)
  }

  function ReplaceFields(fields: seq<Field>, lookup: map<string, Option<string>>): seq<Field> {
    if fields == [] then [] else [Field(fields[0].key, Replace(fields[0].value, lookup))] + ReplaceFields(fields[1..], lookup)
  }

  /** The table knows only encrypted strings, with their decryptions. */
  ghost predicate TableOk(c: Crypto, lookup: map<string, Option<string>>) {
    forall s :: s in lookup ==> IsEncryptedText(s) && lookup[s] == DecryptText(c, Some(s))
  }

  ghost predicate Knows(lookup: map<string, Option<string>>, strings: seq<string>) {
    forall s :: s in strings ==> s in lookup
  }

  lemma {:induction false} ReplaceIsDecrypted(c: Crypto, data: Payload, lookup: map<string, Option<string>>)
    requires TableOk(c, lookup) && Knows(lookup, Strings(data))
    ensures Replace(data, lookup) == Decrypted(c, data)
    decreases data
  {
    match data
    case Text(s) =>
      assert IsEncryptedText(s) ==> s in Strings(data);
    case Arr(items) => ReplaceItemsIsDecrypted(c, items, lookup);
    case Obj(fields) => ReplaceFieldsIsDecrypted(c, fields, lookup);
    case _ =>
  }

  lemma {:induction false} ReplaceItemsIsDecrypted(c: Crypto, items: seq<Payload>, lookup: map<string, Option<string>>)
    requires TableOk(c, lookup) && Knows(lookup, StringsOfItems(items))
    ensures ReplaceItems(items, lookup) == DecryptedItems(c, items)
    decreases items
  {
    if items != [] {
      ReplaceIsDecrypted(c, items[0], lookup);
      ReplaceItemsIsDecrypted(c, items[1..], lookup);
    }
  }

  lemma {:induction false} ReplaceFieldsIsDecrypted(c: Crypto, fields: seq<Field>, lookup: map<string, Option<string>>)
    requires TableOk(c, lookup) && Knows(lookup, StringsOfFields(fields))
    ensures ReplaceFields(fields, lookup) == DecryptedFields(c, fields)
    decreases fields
  {
    if fields != [] {
      assert fields[0] in fields && fields[0].value < fields[0];
      ReplaceIsDecrypted(c, fields[0].value, lookup);
      ReplaceFieldsIsDecrypted(c, fields[1..], lookup);
    }
  }

  /** With nothing encrypted in it, a payload is its own decryption. */
  lemma {:induction false} NothingToDecrypt(c: Crypto, data: Payload)
    requires Strings(data) == []
    ensures Decrypted(c, data) == data
    decreases data
  {
    match data
    case Arr(items) => NothingInItems(c, items);
    case Obj(fields) => NothingInFields(c, fields);
    case _ =>
  }

  lemma {:induction false} NothingInItems(c: Crypto, items: seq<Payload>)
    requires StringsOfItems(items) == []
    ensures DecryptedItems(c, items) == items
    decreases items
  {
    if items != [] {
      NothingToDecrypt(c, items[0]);
      NothingInItems(c, items[1..]);
    }
  }

  lemma {:induction false} NothingInFields(c: Crypto, fields: seq<Field>)
    requires StringsOfFields(fields) == []
    ensures DecryptedFields(c, fields) == fields
    decreases fields
  {
    if fields != [] {
      assert fields[0] in fields && fields[0].value < fields[0];
      NothingToDecrypt(c, fields[0].value);
      NothingInFields(c, fields[1..]);
    }
  }

  /** Equal but for the encrypted strings, each of which is its plaintext, or null where it
      does not decrypt. */
  ghost predicate SameShape(c: Crypto, a: Payload, b: Payload) {
    match a
    case Text(s) => if !("enc:v1:" <= s) then b == a
      else if DecryptText(c, Some(s)).Some? then b == Text(DecryptText(c, Some(s)).value) else b == Null
    case Arr(items) => b.Arr? && |b.items| == |items| && forall i :: 0 <= i < |items| ==> SameShape(c, items[i], b.items[i])
    case Obj(fields) => b.Obj? && |b.fields| == |fields| &&
                        forall i :: 0 <= i < |fields| ==> b.fields[i].key == fields[i].key && SameShape(c, fields[i].value, b.fields[i].value)
    case _ => b == a
  }

  lemma {:induction false} DecryptionKeepsShape(c: Crypto, data: Payload)
    ensures SameShape(c, data, Decrypted(c, data))
    decreases data
  {
    match data
    case Arr(items) =>
      ItemsPointwise(c, items);
      forall i | 0 <= i < |items| ensures SameShape(c, items[i], DecryptedItems(c, items)[i]) {
        DecryptionKeepsShape(c, items[i]);
      }
    case Obj(fields) =>
      FieldsPointwise(c, fields);
      forall i | 0 <= i < |fields| ensures SameShape(c, fields[i].value, DecryptedFields(c, fields)[i].value) {
        assert fields[i] in fields && fields[i].value < fields[i];
        DecryptionKeepsShape(c, fields[i].value);
      }
    case _ =>
  }

  lemma {:induction false} ItemsPointwise(c: Crypto, items: seq<Payload>)
    ensures |DecryptedItems(c, items)| == |items|
    ensures forall i :: 0 <= i < |items| ==> DecryptedItems(c, items)[i] == Decrypted(c, items[i])
  {
    if items != [] {
      ItemsPointwise(c, items[1..]);
    }
  }

  lemma {:induction false} FieldsPointwise(c: Crypto, fields: seq<Field>)
    ensures |DecryptedFields(c, fields)| == |fields|
    ensures forall i :: 0 <= i < |fields| ==> DecryptedFields(c, fields)[i] == Field(fields[i].key, Decrypted(c, fields[i].value))
  {
    if fields != [] {
      FieldsPointwise(c, fields[1..]);
    }
  }

  /** The traversal that pushes every encrypted string it meets. */
  method CollectEncryptedStrings(data: Payload, collected: seq<string>) returns (all: seq<string>)
    ensures all == collected + Strings(data)
    decreases data
  {
    all := collected;
    match data {
      case Text(s) =>
        if IsEncryptedText(s) {
          all := all + [s];
        }
      case Arr(items) =>
        for i := 0 to |items|
          invariant all == collected + StringsOfItems(items[..i])
        {
          StringsOfItemsSnoc(items, i);
          all := CollectEncryptedStrings(items[i], all);
        }
        assert items[..|items|] == items;
      case Obj(fields) =>
        for i := 0 to |fields|
          invariant all == collected + StringsOfFields(fields[..i])
        {
          StringsOfFieldsSnoc(fields, i);
          assert fields[i] in fields && fields[i].value < fields[i];
          all := CollectEncryptedStrings(fields[i].value, all);
        }
        assert fields[..|fields|] == fields;
      case _ =>
    }
  }

  lemma {:induction false} StringsOfItemsSnoc(items: seq<Payload>, i: nat)
    requires i < |items|
    ensures StringsOfItems(items[..i + 1]) == StringsOfItems(items[..i]) + Strings(items[i])
  {
    if i == 0 {
      assert items[..1][1..] == [];
    } else {
      StringsOfItemsSnoc(items[1..], i - 1);
      assert items[..i + 1][1..] == items[1..][..i] && items[..i][1..] == items[1..][..i - 1];
    }
  }

  lemma {:induction false} StringsOfFieldsSnoc(fields: seq<Field>, i: nat)
    requires i < |fields|
    ensures StringsOfFields(fields[..i + 1]) == StringsOfFields(fields[..i]) + Strings(fields[i].value)
  {
    if i == 0 {
      assert fields[..1][1..] == [];
    } else {
      StringsOfFieldsSnoc(fields[1..], i - 1);
      assert fields[..i + 1][1..] == fields[1..][..i] && fields[..i][1..] == fields[1..][..i - 1];
    }
  }

  /** The distinct strings, each at its first place. */
  method Unique(strings: seq<string>) returns (unique: seq<string>)
    ensures forall s :: s in unique <==> s in strings
    ensures forall i, j :: 0 <= i < j < |unique| ==> unique[i] != unique[j]
  {
    unique := [];
    for k := 0 to |strings|
      invariant forall s :: s in unique <==> s in strings[..k]
      invariant forall i, j :: 0 <= i < j < |unique| ==> unique[i] != unique[j]
    {
      assert strings[..k + 1] == strings[..k] + [strings[k]];
      if strings[k] !in unique {
        unique := unique + [strings[k]];
      }
    }
    assert strings[..|strings|] == strings;
  }

  lemma {:induction false} StringsAreEncrypted(data: Payload)
    ensures forall s :: s in Strings(data) ==> IsEncryptedText(s)
    decreases data
  {
    match data
    case Arr(items) => ItemStringsAreEncrypted(items);
    case Obj(fields) => FieldStringsAreEncrypted(fields);
    case _ =>
  }

  lemma {:induction false} ItemStringsAreEncrypted(items: seq<Payload>)
    ensures forall s :: s in StringsOfItems(items) ==> IsEncryptedText(s)
    decreases items
  {
    if items != [] {
      StringsAreEncrypted(items[0]);
      ItemStringsAreEncrypted(items[1..]);
    }
  }

  lemma {:induction false} FieldStringsAreEncrypted(fields: seq<Field>)
    ensures forall s :: s in StringsOfFields(fields) ==> IsEncryptedText(s)
    decreases fields
  {
    if fields != [] {
      assert fields[0] in fields && fields[0].value < fields[0];
      StringsAreEncrypted(fields[0].value);
      FieldStringsAreEncrypted(fields[1..]);
    }
  }

  /** Collect, deduplicate, decrypt in one batch and put back: the same as decrypting every
      encrypted string of the tree where it stands, shape unchanged. */
  method DecryptPayload(c: Crypto, data: Payload) returns (result: Payload)
    ensures result == Decrypted(c, data)
    ensures SameShape(c, data, result)
  {
    DecryptionKeepsShape(c, data);
    if data.Null? || data.Undefined? || data.Opaque? {
      return data;
    }
    if data.Text? {
      if IsEncryptedText(data.text) {
        var plain := DecryptText(c, Some(data.text));
        return if plain.Some? then Text(plain.value) else Null;
      }
      return data;
    }
    var encryptedStrings := CollectEncryptedStrings(data, []);
    if |encryptedStrings| == 0 {
      NothingToDecrypt(c, data);
      return data;
    }
    StringsAreEncrypted(data);
    var unique := Unique(encryptedStrings);
    var decryptedValues, _ := DecryptBatch(c, seq(|unique|, i requires 0 <= i < |unique| => Some(unique[i])));
    var lookup: map<string, Option<string>> := map[];
    for i := 0 to |unique|
      invariant TableOk(c, lookup)
      invariant forall k :: 0 <= k < i ==> unique[k] in lookup
    {
      assert unique[i] in unique;
      lookup := lookup[unique[i] := decryptedValues[i]];
    }
    assert Knows(lookup, Strings(data)) by {
      forall s | s in Strings(data) ensures s in lookup {
        assert s in unique;
      }
    }
    ReplaceIsDecrypted(c, data, lookup);
    result := Replace(data, lookup);
  }
}
