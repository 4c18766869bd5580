/**
 * Signing a CyberSource payload and verifying a signed one. The key and the message digest
 * (HMAC-SHA256, section 2 of RFC 2104, in Base64, section 4 of RFC 4648) are an arbitrary function
 * from messages to signatures.
 */
module Signing {
  import opened Prelude

  const SIGNATURE := "signature"
  const SIGNED_FIELD_NAMES := "signed_field_names"

  type Payload = map<string, string>

  // ----------------------------------------------------------------------------------------
  // Joining and splitting at commas
  // ----------------------------------------------------------------------------------------

  function Join(parts: seq<string>): string {
    if parts == [] then "" else if |parts| == 1 then parts[0] else parts[0] + "," + Join(parts[1..])
  }

  /** split(","): there is always at least one part. */
  function Split(text: string): (parts: seq<string>)
    ensures parts != []
  {
    if text == "" then [""]
    else
      var rest := Split(text[1..]);
      if text[0] == ',' then [""] + rest else [[text[0]] + rest[0]] + rest[1..]
  }

  lemma {:induction false} SplitWithoutComma(text: string)
    requires ',' !in text
    ensures Split(text) == [text]
  {
    if text != "" {
      SplitWithoutComma(text[1..]);
      assert [text[0]] + text[1..] == text;
    }
  }

  lemma {:induction false} SplitAtComma(head: string, tail: string)
    requires ',' !in head
    ensures Split(head + "," + tail) == [head] + Split(tail)
  {
    var text := head + "," + tail;
    if head == "" {
      assert text[1..] == tail;
    } else {
      assert text[1..] == head[1..] + "," + tail;
      SplitAtComma(head[1..], tail);
      assert [head[0]] + head[1..] == head;
    }
  }

  /** Splitting undoes joining when there is a part and no part holds a comma. */
  lemma {:induction false} SplitJoin(parts: seq<string>)
    requires parts != [] && forall p :: p in parts ==> ',' !in p
    ensures Split(Join(parts)) == parts
  {
    if |parts| == 1 {
      SplitWithoutComma(parts[0]);
    } else {
      SplitAtComma(parts[0], Join(parts[1..]));
      SplitJoin(parts[1..]);
    }
  }

  /** Joining undoes splitting always. */
  lemma {:induction false} JoinSplit(text: string)
    ensures Join(Split(text)) == text
  {
    if text != "" {
      JoinSplit(text[1..]);
      var rest := Split(text[1..]);
      if text[0] == ',' {
        assert ([""] + rest)[1..] == rest;
      } else {
        var parts := [[text[0]] + rest[0]] + rest[1..];
        assert parts[1..] == rest[1..];
      }
    }
  }

  // ----------------------------------------------------------------------------------------
  // Sorting field names
  // ----------------------------------------------------------------------------------------

  /** String order by character code, as Python's sorted() uses. */
  predicate Precedes(a: string, b: string) {
    a == "" || (b != "" && (a[0] < b[0] || (a[0] == b[0] && Precedes(a[1..], b[1..]))))
  }

  function InsertName(name: string, names: seq<string>): seq<string> {
    if names == [] || Precedes(name, names[0]) then [name] + names
    else [names[0]] + InsertName(name, names[1..])
  }

  function SortNames(names: seq<string>): seq<string> {
    if names == [] then [] else InsertName(names[0], SortNames(names[1..]))
  }

  lemma {:induction false} PrecedesTotal(a: string, b: string)
    ensures Precedes(a, b) || Precedes(b, a)
  {
    if a != "" && b != "" && a[0] == b[0] {
      PrecedesTotal(a[1..], b[1..]);
    }
  }

  lemma {:induction false} PrecedesTransitive(a: string, b: string, c: string)
    requires Precedes(a, b) && Precedes(b, c)
    ensures Precedes(a, c)
  {
    if a != "" && a[0] == b[0] == c[0] {
      PrecedesTransitive(a[1..], b[1..], c[1..]);
    }
  }

  ghost predicate IsSorted(names: seq<string>) {
    forall i, j :: 0 <= i < j < |names| ==> Precedes(names[i], names[j])
  }

  lemma {:induction false} InsertNameSorted(name: string, names: seq<string>)
    requires IsSorted(names)
    ensures IsSorted(InsertName(name, names))
    ensures multiset(InsertName(name, names)) == multiset{name} + multiset(names)
  {
    if names == [] {
    } else if Precedes(name, names[0]) {
      forall i | 0 < i < |names| ensures Precedes(name, names[i]) {
        PrecedesTransitive(name, names[0], names[i]);
      }
    } else {
      PrecedesTotal(name, names[0]);
      InsertNameSorted(name, names[1..]);
      var tail := InsertName(name, names[1..]);
      assert names == [names[0]] + names[1..];
      forall n | n in tail ensures Precedes(names[0], n) {
        assert n in multiset(tail);
        if n != name {
          assert n in names[1..];
        }
      }
    }
  }

  lemma {:induction false} SortNamesSorted(names: seq<string>)
    ensures IsSorted(SortNames(names))
    ensures multiset(SortNames(names)) == multiset(names)
    ensures |SortNames(names)| == |names|
    ensures forall n :: n in SortNames(names) <==> n in names
  {
    if names != [] {
      SortNamesSorted(names[1..]);
      InsertNameSorted(names[0], SortNames(names[1..]));
      assert names == [names[0]] + names[1..];
    }
    assert |multiset(SortNames(names))| == |multiset(names)|;
    forall n ensures n in SortNames(names) <==> n in names {
      assert n in SortNames(names) <==> n in multiset(SortNames(names));
      assert n in names <==> n in multiset(names);
    }
  }

  // ----------------------------------------------------------------------------------------
  // Signing and verifying
  // ----------------------------------------------------------------------------------------

  /** "key=value" for each key, joined; None if a key is missing. */
  function Fields(payload: Payload, keys: seq<string>): Option<seq<string>> {
    if keys == [] then Some([])
    else if keys[0] !in payload then None
    else
      match Fields(payload, keys[1..])
      case None => None
      case Some(rest) => Some([keys[0] + "=" + payload[keys[0]]] + rest)
  }

  /** The text that is signed: the named fields, joined; None where the original raises KeyError. */
  function SignedText(payload: Payload): Option<string> {
    if SIGNED_FIELD_NAMES !in payload then None
    else
      match Fields(payload, Split(payload[SIGNED_FIELD_NAMES]))
      case None => None
      case Some(fields) => Some(Join(fields))
  }

  /** generate_cybersource_sa_signature. */
  function Signature(payload: Payload, mac: string -> string): Option<string> {
    match SignedText(payload)
    case None => None
    case Some(text) => Some(mac(text))
  }

  /** The names sign_cybersource_payload puts into "signed_field_names". */
  function NameList(keys: seq<string>): string {
    Join(SortNames(keys + [SIGNED_FIELD_NAMES]))
  }

  function Named(payload: Payload, keys: seq<string>): Payload {
    payload[SIGNED_FIELD_NAMES := NameList(keys)]
  }

  /** sign_cybersource_payload; `keys` are the payload's keys in insertion order. */
  function Sign(payload: Payload, keys: seq<string>, mac: string -> string): Option<Payload> {
    var named := Named(payload, keys);
    match Signature(named, mac)
    case None => None
    case Some(signature) => Some(named[SIGNATURE := signature])
  }

  /** IsSignedByCyberSource.has_permission; a missing key raises and so grants nothing. */
  predicate Verifies(payload: Payload, mac: string -> string) {
    SIGNATURE in payload && Signature(payload, mac) == Some(payload[SIGNATURE])
  }

  ghost predicate AreKeysOf(payload: Payload, keys: seq<string>) {
    forall k :: k in keys <==> k in payload
  }

  lemma {:induction false} FieldsDefined(payload: Payload, keys: seq<string>)
    ensures Fields(payload, keys).Some? <==> forall k :: k in keys ==> k in payload
  {
    if keys != [] {
      FieldsDefined(payload, keys[1..]);
      assert forall k :: k in keys <==> k == keys[0] || k in keys[1..];
    }
  }

  /** Signing reads a field only by its own key. */
  lemma {:induction false} FieldsUnaffected(payload: Payload, keys: seq<string>, key: string, value: string)
    requires key !in keys
    ensures Fields(payload[key := value], keys) == Fields(payload, keys)
  {
    if keys != [] {
      FieldsUnaffected(payload, keys[1..], key, value);
    }
  }

  /**
   * A payload whose keys hold no comma and are neither of the two reserved names can be signed, the
   * signed names are its keys and "signed_field_names" in sorted order, every field survives, and
   * verification accepts the result.
   */
  lemma SignedPayloadVerifies(payload: Payload, keys: seq<string>, mac: string -> string)
    requires AreKeysOf(payload, keys)
    requires forall k :: k in keys ==> ',' !in k
    requires SIGNATURE !in payload && SIGNED_FIELD_NAMES !in payload
    ensures Sign(payload, keys, mac).Some?
    ensures var signed := Sign(payload, keys, mac).value;
            var names := Split(signed[SIGNED_FIELD_NAMES]);
            && Verifies(signed, mac)
            && IsSorted(names) && multiset(names) == multiset(keys) + multiset{SIGNED_FIELD_NAMES}
            && SIGNATURE !in names
            && signed.Keys == payload.Keys + {SIGNED_FIELD_NAMES, SIGNATURE}
            && forall k :: k in payload ==> signed[k] == payload[k]
  {
    var all := keys + [SIGNED_FIELD_NAMES];
    var names := SortNames(all);
    SortNamesSorted(all);
    SplitJoin(names);
    var named := Named(payload, keys);
    FieldsDefined(named, names);
    var signed := Sign(payload, keys, mac).value;
    FieldsUnaffected(named, names, SIGNATURE, signed[SIGNATURE]);
  }

  /**
   * In general signing succeeds exactly when every name read back from the joined list is a field,
   * and then verification accepts the result whenever none of those names is "signature".
   */
  lemma SigningExactly(payload: Payload, keys: seq<string>, mac: string -> string)
    ensures var joined := NameList(keys);
            && (Sign(payload, keys, mac).Some? <==>
                  forall k :: k in Split(joined) ==> k in payload || k == SIGNED_FIELD_NAMES)
            && (Sign(payload, keys, mac).Some? && SIGNATURE !in Split(joined) ==>
                  Verifies(Sign(payload, keys, mac).value, mac))
  {
    var joined := NameList(keys);
    var named := Named(payload, keys);
    FieldsDefined(named, Split(joined));
    if Sign(payload, keys, mac).Some? && SIGNATURE !in Split(joined) {
      FieldsUnaffected(named, Split(joined), SIGNATURE, Sign(payload, keys, mac).value[SIGNATURE]);
    }
  }

  /** Two payloads that differ at most in the value of one key. */
  ghost predicate DifferAt(p: Payload, q: Payload, key: string) {
    key in p && key in q && q == p[key := q[key]]
  }

  /** The joined fields of two such payloads: a longer value makes a longer text. */
  lemma {:induction false} LongerValueLongerText(p: Payload, q: Payload, key: string, keys: seq<string>)
    requires DifferAt(p, q, key) && |p[key]| < |q[key]|
    requires Fields(p, keys).Some? && Fields(q, keys).Some?
    ensures var a := Join(Fields(p, keys).value); var b := Join(Fields(q, keys).value);
            |a| <= |b| && (key in keys ==> |a| < |b|)
  {
    if keys != [] {
      LongerValueLongerText(p, q, key, keys[1..]);
      assert keys[0] == key || p[keys[0]] == q[keys[0]];
      FieldsAre(p, keys);
      FieldsAre(q, keys);
      assert keys == [keys[0]] + keys[1..];
    }
  }

  /** One field for each key, in order: the key, "=", and its value. */
  lemma {:induction false} FieldsAre(payload: Payload, keys: seq<string>)
    requires Fields(payload, keys).Some?
    ensures var fields := Fields(payload, keys).value;
            && |fields| == |keys|
            && forall i :: 0 <= i < |keys| ==> keys[i] in payload && fields[i] == keys[i] + "=" + payload[keys[i]]
  {
    if keys != [] {
      FieldsAre(payload, keys[1..]);
    }
  }

  /** And a different value of the same length makes a different text. */
  lemma {:induction false} SameLengthValueShows(p: Payload, q: Payload, key: string, keys: seq<string>)
    requires DifferAt(p, q, key) && |p[key]| == |q[key]|
    requires Fields(p, keys).Some? && Fields(q, keys).Some?
    ensures var a := Join(Fields(p, keys).value); var b := Join(Fields(q, keys).value);
            |a| == |b| && (key in keys && a == b ==> p == q)
  {
    if keys != [] {
      SameLengthValueShows(p, q, key, keys[1..]);
      FieldsAre(p, keys);
      FieldsAre(q, keys);
      assert keys == [keys[0]] + keys[1..];
      var fp, fq := Fields(p, keys).value, Fields(q, keys).value;
      var headP, headQ := keys[0] + "=" + p[keys[0]], keys[0] + "=" + q[keys[0]];
      assert fp[0] == headP && fq[0] == headQ && |headP| == |headQ|;
      if key in keys && Join(fp) == Join(fq) {
        assert headP == Join(fp)[..|headP|] && headQ == Join(fq)[..|headQ|];
        if keys[0] == key {
          assert headP[|key| + 1..] == p[key] && headQ[|key| + 1..] == q[key];
        } else {
          assert Join(fp)[|headP| + 1..] == Join(fp[1..]) && Join(fq)[|headQ| + 1..] == Join(fq[1..]);
        }
      }
    }
  }

  /** Two payloads that differ at most in one signed field give the same text exactly if they are the same. */
  lemma TextsAgreeExactly(p: Payload, q: Payload, key: string, keys: seq<string>)
    requires DifferAt(p, q, key) && key in keys
    requires Fields(p, keys).Some? && Fields(q, keys).Some?
    ensures Join(Fields(p, keys).value) == Join(Fields(q, keys).value) <==> p[key] == q[key]
  {
    if p[key] == q[key] {
      assert p == q;
    } else if |p[key]| < |q[key]| {
      LongerValueLongerText(p, q, key, keys);
    } else if |q[key]| < |p[key]| {
      assert DifferAt(q, p, key);
      LongerValueLongerText(q, p, key, keys);
    } else {
      SameLengthValueShows(p, q, key, keys);
    }
  }

  /**
   * For any digest, verification accepts a payload just signed exactly when "signature" is not among
   * the signed names or the digests of the text signed and of the text verified are equal. Those two
   * texts are the same only if the old value of "signature" already was the new one; otherwise the
   * payload passes by a collision of the digest or not at all.
   */
  lemma VerifiesExactly(payload: Payload, keys: seq<string>, mac: string -> string)
    requires Sign(payload, keys, mac).Some?
    ensures var signed := Sign(payload, keys, mac).value;
            var before, after := SignedText(Named(payload, keys)), SignedText(signed);
            var covered := SIGNATURE in Split(NameList(keys));
            && before.Some? && after.Some?
            && (Verifies(signed, mac) <==> !covered || mac(before.value) == mac(after.value))
            && (covered ==> SIGNATURE in payload
                            && (before == after <==> payload[SIGNATURE] == signed[SIGNATURE]))
  {
    SigningExactly(payload, keys, mac);
    var names := Split(NameList(keys));
    var named := Named(payload, keys);
    var signed := Sign(payload, keys, mac).value;
    FieldsDefined(named, names);
    FieldsDefined(signed, names);
    if SIGNATURE in names {
      TextsAgreeExactly(named, signed, SIGNATURE, names);
    }
  }

  /**
   * Which payloads verify: those that have a signature, whose named fields are all there, and whose
   * signature is the digest of those fields.
   */
  lemma VerifiesOnly(payload: Payload, mac: string -> string)
    ensures Verifies(payload, mac) <==>
              && SIGNATURE in payload && SIGNED_FIELD_NAMES in payload
              && (forall name :: name in Split(payload[SIGNED_FIELD_NAMES]) ==> name in payload)
              && SignedText(payload).Some? && payload[SIGNATURE] == mac(SignedText(payload).value)
  {
    if SIGNED_FIELD_NAMES in payload {
      FieldsDefined(payload, Split(payload[SIGNED_FIELD_NAMES]));
    }
  }

  /**
   * Tampering. If one signed field of a payload that verifies is given another value, the text it is
   * checked against is another one, so it verifies only by a collision of the digest. If the signature
   * alone is given another value, and is not itself signed, it does not verify.
   */
  lemma TamperedPayloadRefused(payload: Payload, key: string, value: string, mac: string -> string)
    requires Verifies(payload, mac) && key in payload && value != payload[key] && key != SIGNED_FIELD_NAMES
    ensures var names := Split(payload[SIGNED_FIELD_NAMES]);
            var tampered := payload[key := value];
            && (key in names && key != SIGNATURE ==>
                  && SignedText(tampered).Some? && SignedText(tampered) != SignedText(payload)
                  && (Verifies(tampered, mac) <==>
                        mac(SignedText(tampered).value) == mac(SignedText(payload).value)))
            && (key == SIGNATURE && SIGNATURE !in names ==> !Verifies(tampered, mac))
  {
    var names := Split(payload[SIGNED_FIELD_NAMES]);
    var tampered := payload[key := value];
    VerifiesOnly(payload, mac);
    VerifiesOnly(tampered, mac);
    FieldsDefined(payload, names);
    FieldsDefined(tampered, names);
    if key in names {
      assert DifferAt(payload, tampered, key);
      TextsAgreeExactly(payload, tampered, key, names);
    } else {
      FieldsUnaffected(payload, names, key, value);
    }
  }

  /** The payload {"signature": "x"}, signed by a digest that returns its message. */
  function SignedTwice(): Option<Payload> {
    Sign(map[SIGNATURE := "x"], [SIGNATURE], Echo())
  }

  function Echo(): string -> string {
    (message: string) => message
  }

  lemma SortedPairSplits(a: string, b: string)
    requires ',' !in a && ',' !in b
    ensures var names := SortNames([a] + [b]);
            Split(Join(names)) == names && |names| == 2 && a in names && b in names
            && forall k :: k in names ==> k == a || k == b
  {
    var all := [a] + [b];
    assert all[0] == a && all[1] == b;
    SortNamesSorted(all);
    SplitJoin(SortNames(all));
  }

  /** So signing a payload that already has a "signature" field can produce one that is refused. */
  lemma ResigningFails()
    ensures SignedTwice().Some? && !Verifies(SignedTwice().value, Echo())
  {
    var payload: Payload := map[SIGNATURE := "x"];
    var names := SortNames([SIGNATURE] + [SIGNED_FIELD_NAMES]);
    SortedPairSplits(SIGNATURE, SIGNED_FIELD_NAMES);
    SigningExactly(payload, [SIGNATURE], Echo());
    VerifiesExactly(payload, [SIGNATURE], Echo());
    FieldsAre(Named(payload, [SIGNATURE]), names);
    assert |SignedTwice().value[SIGNATURE]| > 1;
  }
}
