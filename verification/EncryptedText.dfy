/** The compact text form of an encrypted value, and reading it back.
    `enc:v1:<keyId>:<iv>:<tag>:<wrappedKey>:<ciphertext>`, where the last four fields are
    Base64 (RFC 4648, section 4) and so hold no colon, but the key id may. */
module EncryptedText {
  import opened Prelude

  datatype Parsed = Parsed(keyId: string, iv: string, tag: string, wrappedKey: string, ciphertext: string)

  const PREFIX := "enc:v1:"

  function Print(p: Parsed): string {
    PREFIX + p.keyId + ":" + p.iv + ":" + p.tag + ":" + p.wrappedKey + ":" + p.ciphertext
  }

  predicate IsEncryptedText(value: string) {
    PREFIX <= value
  }

  /** Split at every colon; always at least one part. */
  function Split(s: string): (parts: seq<string>)
    ensures |parts| > 0
  {
    if s == "" then [""]
    else
      var rest := Split(s[1..]);
      if s[0] == ':' then [""] + rest else [[s[0]] + rest[0]] + rest[1..]
  }

  function Join(parts: seq<string>): string {
    if parts == [] then ""
    else if |parts| == 1 then parts[0]
    else parts[0] + ":" + Join(parts[1..])
  }

  function Parse(value: string): Option<Parsed> {
    if !IsEncryptedText(value) then None
    else
      var parts := Split(value);
      var n := |parts|;
      if n < 7 then None
      else Some(Parsed(Join(parts[2..n - 4]), parts[n - 4], parts[n - 3], parts[n - 2], parts[n - 1]))
  }

  predicate NoColon(s: string) {
    ':' !in s
  }

  // ---- Splitting and joining ----

  lemma {:induction false} SplitPlain(s: string)
    requires NoColon(s)
    ensures Split(s) == [s]
  {
    if s != "" {
      SplitPlain(s[1..]);
      assert s == [s[0]] + s[1..];
    }
  }

  lemma {:induction false} SplitConcat(a: string, b: string)
    ensures Split(a + ":" + b) == Split(a) + Split(b)
  {
    if a == "" {
      assert (a + ":" + b)[1..] == b;
    } else {
      assert (a + ":" + b)[1..] == a[1..] + ":" + b;
      SplitConcat(a[1..], b);
    }
  }

  lemma {:induction false} JoinSplit(s: string)
    ensures Join(Split(s)) == s
  {
    if s != "" {
      JoinSplit(s[1..]);
      var rest := Split(s[1..]);
      if s[0] == ':' {
        assert ([""] + rest)[1..] == rest;
      } else {
        assert ([[s[0]] + rest[0]] + rest[1..])[1..] == rest[1..];
      }
      assert s == [s[0]] + s[1..];
    }
  }

  lemma {:induction false} JoinConcat(a: seq<string>, b: seq<string>)
    requires a != [] && b != []
    ensures Join(a + b) == Join(a) + ":" + Join(b)
  {
    assert (a + b)[0] == a[0] && (a + b)[1..] == a[1..] + b;
    if |a| == 1 {
      assert a[1..] + b == b;
    } else {
      var front, back := Join(a[1..]), Join(b);
      JoinConcat(a[1..], b);
      assert Join(a + b) == a[0] + ":" + (front + ":" + back);
      assert a[0] + ":" + (front + ":" + back) == (a[0] + ":" + front) + ":" + back;
    }
  }

  lemma {:induction false} PartsHaveNoColon(s: string)
    ensures forall i :: 0 <= i < |Split(s)| ==> NoColon(Split(s)[i])
  {
    if s != "" {
      PartsHaveNoColon(s[1..]);
    }
  }

  // ---- The two directions ----

  /** A plain field at the end is a part of its own. */
  lemma SplitLast(a: string, field: string)
    requires NoColon(field)
    ensures Split(a + ":" + field) == Split(a) + [field]
  {
    SplitConcat(a, field);
    SplitPlain(field);
  }

  lemma SplitHead(keyId: string)
    ensures Split(PREFIX + keyId) == ["enc", "v1"] + Split(keyId)
  {
    assert PREFIX + keyId == "enc" + ":" + ("v1" + ":" + keyId);
    SplitPlain("enc");
    SplitPlain("v1");
    SplitConcat("v1", keyId);
    SplitConcat("enc", "v1" + ":" + keyId);
  }

  lemma SplitPrinted(p: Parsed)
    requires NoColon(p.iv) && NoColon(p.tag) && NoColon(p.wrappedKey) && NoColon(p.ciphertext)
    ensures Split(Print(p)) == ["enc", "v1"] + Split(p.keyId) + [p.iv] + [p.tag] + [p.wrappedKey] + [p.ciphertext]
  {
    var t0 := PREFIX + p.keyId;
    var t1 := t0 + ":" + p.iv;
    var t2 := t1 + ":" + p.tag;
    var t3 := t2 + ":" + p.wrappedKey;
    SplitHead(p.keyId);
    SplitLast(t0, p.iv);
    SplitLast(t1, p.tag);
    SplitLast(t2, p.wrappedKey);
    SplitLast(t3, p.ciphertext);
  }

  /** What `encryptText` writes is read back field by field, for every key id. */
  lemma ParsePrint(p: Parsed)
    requires NoColon(p.iv) && NoColon(p.tag) && NoColon(p.wrappedKey) && NoColon(p.ciphertext)
    ensures Parse(Print(p)) == Some(p)
  {
    SplitPrinted(p);
    var parts, keyParts := Split(Print(p)), Split(p.keyId);
    assert parts[2..|parts| - 4] == keyParts;
    JoinSplit(p.keyId);
  }

  /** Every accepted text is exactly what printing its parse gives, and the parsed fields
      other than the key id hold no colon. */
  lemma PrintParse(value: string)
    requires Parse(value).Some?
    ensures var p := Parse(value).value;
            && Print(p) == value
            && NoColon(p.iv) && NoColon(p.tag) && NoColon(p.wrappedKey) && NoColon(p.ciphertext)
  {
    var p := Parse(value).value;
    var parts := Split(value);
    var n := |parts|;
    PartsHaveNoColon(value);
    JoinSplit(value);
    PrefixParts(value);
    var head, mid := parts[..2], parts[2..n - 4];
    var tail := [p.iv] + [p.tag] + [p.wrappedKey] + [p.ciphertext];
    assert parts == head + (mid + tail);
    JoinConcat(head, mid + tail);
    JoinConcat(mid, tail);
    assert tail == [p.iv] + ([p.tag] + ([p.wrappedKey] + [p.ciphertext]));
    JoinConcat([p.iv], [p.tag] + ([p.wrappedKey] + [p.ciphertext]));
    JoinConcat([p.tag], [p.wrappedKey] + [p.ciphertext]);
    JoinConcat([p.wrappedKey], [p.ciphertext]);
    assert head == ["enc"] + ["v1"];
    JoinConcat(["enc"], ["v1"]);
    assert Join(head) + ":" == PREFIX;
    Rebuilt(value, p, Join(head));
  }

  lemma Rebuilt(value: string, p: Parsed, head: string)
    requires head + ":" == PREFIX
    requires value == head + ":" + (p.keyId + ":" + (p.iv + ":" + (p.tag + ":" + (p.wrappedKey + ":" + p.ciphertext))))
    ensures Print(p) == value
  {
  }

  /** A text with the prefix splits into "enc", "v1" and more. */
  lemma PrefixParts(value: string)
    requires IsEncryptedText(value)
    ensures |Split(value)| >= 3 && Split(value)[..2] == ["enc", "v1"]
  {
    var rest := value[|PREFIX|..];
    assert value == PREFIX + rest;
    SplitHead(rest);
  }

  /** The text prints some fields, of which all but the key id hold no colon. */
  ghost predicate IsPrinted(value: string) {
    exists p: Parsed :: NoColon(p.iv) && NoColon(p.tag) && NoColon(p.wrappedKey) && NoColon(p.ciphertext) && Print(p) == value
  }

  /** A text is accepted exactly if it is one that can be printed. */
  lemma ParseAcceptsExactly(value: string)
    ensures Parse(value).Some? <==> IsPrinted(value)
  {
    if Parse(value).Some? {
      PrintParse(value);
    }
    if IsPrinted(value) {
      var p: Parsed :| NoColon(p.iv) && NoColon(p.tag) && NoColon(p.wrappedKey) && NoColon(p.ciphertext) && Print(p) == value;
      ParsePrint(p);
    }
  }
}
