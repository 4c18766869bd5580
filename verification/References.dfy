/** Order reference numbers: printing, routing by prefix, and parsing. */
module References {
  import opened Prelude

  // ----------------------------------------------------------------------------------------
  // Decimal numbers
  // ----------------------------------------------------------------------------------------

  const DIGITS := "0123456789"

  predicate IsDigit(c: char) {
    '0' <= c <= '9'
  }

  function DigitValue(c: char): nat
    requires IsDigit(c)
  {
    (c - '0') as nat
  }

  /** str() of a natural number. */
  function PrintNat(n: nat): (s: string)
    ensures s != "" && forall i :: 0 <= i < |s| ==> IsDigit(s[i])
  {
    if n < 10 then [DIGITS[n]] else PrintNat(n / 10) + [DIGITS[n % 10]]
  }

  predicate IsSpace(c: char) {
    c == ' ' || '\t' <= c <= '\r' || '\U{1c}' <= c <= '\U{1f}'
  }

  function StripLeft(s: string): string {
    if s != "" && IsSpace(s[0]) then StripLeft(s[1..]) else s
  }

  function StripRight(s: string): string {
    if s != "" && IsSpace(s[|s| - 1]) then StripRight(s[..|s| - 1]) else s
  }

  /** Decimal digits with single underscores allowed between them. */
  function ParseNumber(s: string): Option<nat> {
    if s == "" || !IsDigit(s[|s| - 1]) then None
    else
      var digit := DigitValue(s[|s| - 1]);
      var init := s[..|s| - 1];
      if init == "" then Some(digit)
      else
        var body := if init[|init| - 1] == '_' then init[..|init| - 1] else init;
        match ParseNumber(body)
        case None => None
        case Some(v) => Some(10 * v + digit)
  }

  /** int() of an ASCII string. */
  function ParseInt(s: string): Option<int> {
    var t := StripRight(StripLeft(s));
    if t != "" && (t[0] == '+' || t[0] == '-') then
      match ParseNumber(t[1..])
      case None => None
      case Some(v) => Some(if t[0] == '-' then 0 - v else v)
    else
      match ParseNumber(t)
      case None => None
      case Some(v) => Some(v)
  }

  lemma {:induction false} ParseNumberPrint(n: nat)
    ensures ParseNumber(PrintNat(n)) == Some(n)
  {
    if n >= 10 {
      ParseNumberPrint(n / 10);
      assert PrintNat(n)[..|PrintNat(n)| - 1] == PrintNat(n / 10);
    }
  }

  lemma ParseIntPrint(n: nat)
    ensures ParseInt(PrintNat(n)) == Some(n)
  {
    ParseNumberPrint(n);
    var s := PrintNat(n);
    assert IsDigit(s[0]) && IsDigit(s[|s| - 1]);
    assert StripLeft(s) == s && StripRight(s) == s;
  }

  lemma {:induction false} ParsedNumberHasNoDash(s: string)
    requires ParseNumber(s).Some?
    ensures '-' !in s
  {
    var init := s[..|s| - 1];
    assert s == init + [s[|s| - 1]];
    if init != "" {
      if init[|init| - 1] == '_' {
        ParsedNumberHasNoDash(init[..|init| - 1]);
        assert init == init[..|init| - 1] + ['_'];
      } else {
        ParsedNumberHasNoDash(init);
      }
    }
  }

  lemma {:induction false} StripKeepsDash(s: string)
    requires '-' in s
    ensures '-' in StripLeft(s) && '-' in StripRight(s)
    decreases |s|
  {
    if IsSpace(s[0]) {
      assert s == [s[0]] + s[1..];
      StripKeepsDash(s[1..]);
    }
    if IsSpace(s[|s| - 1]) {
      assert s == s[..|s| - 1] + [s[|s| - 1]];
      StripKeepsDash(s[..|s| - 1]);
    }
  }

  lemma DashParsesNonPositive(s: string)
    requires '-' in s && ParseInt(s).Some?
    ensures ParseInt(s).value <= 0
  {
    StripKeepsDash(s);
    StripKeepsDash(StripLeft(s));
    var t := StripRight(StripLeft(s));
    if t[0] == '+' || t[0] == '-' {
      ParsedNumberHasNoDash(t[1..]);
      assert t == [t[0]] + t[1..];
    } else {
      ParsedNumberHasNoDash(t);
    }
  }

  // ----------------------------------------------------------------------------------------
  // Reference numbers
  // ----------------------------------------------------------------------------------------

  datatype Kind = B2C | B2B

  datatype ReferenceError = UnknownPrefix | WrongPrefix | NotANumber

  function KindPrefix(kind: Kind): string {
    match kind
    case B2C => "xpro-b2c-"
    case B2B => "xpro-bulk-"
  }

  function Prefix(kind: Kind, environment: string): string {
    KindPrefix(kind) + environment
  }

  function ReferenceNumber(kind: Kind, environment: string, id: nat): string {
    Prefix(kind, environment) + "-" + PrintNat(id)
  }

  /** get_order_id_by_reference_number. */
  function ParseReference(reference: string, prefix: string): Result<int, ReferenceError> {
    var start := prefix + "-";
    if !(start <= reference) then Err(WrongPrefix)
    else
      match ParseInt(reference[|start|..])
      case None => Err(NotANumber)
      case Some(id) => Ok(id)
  }

  /** The routing of OrderFulfillmentView.post and the lookup that follows it. */
  function Resolve(environment: string, reference: string): Result<(Kind, int), ReferenceError> {
    if Prefix(B2B, environment) <= reference then
      var id :- ParseReference(reference, Prefix(B2B, environment));
      Ok((B2B, id))
    else if Prefix(B2C, environment) <= reference then
      var id :- ParseReference(reference, Prefix(B2C, environment));
      Ok((B2C, id))
    else Err(UnknownPrefix)
  }

  /** The seventh character tells the kinds apart. */
  lemma PrefixMark(kind: Kind, environment: string, reference: string)
    requires Prefix(kind, environment) <= reference
    ensures |reference| > 6 && reference[6] == (if kind == B2C then '2' else 'u')
  {
    assert reference[6] == Prefix(kind, environment)[6] == KindPrefix(kind)[6];
  }

  /** No string carries both prefixes, whatever the environments. */
  lemma PrefixesDisjoint(e: string, f: string, reference: string)
    ensures !(Prefix(B2C, e) <= reference && Prefix(B2B, f) <= reference)
  {
    if Prefix(B2C, e) <= reference && Prefix(B2B, f) <= reference {
      PrefixMark(B2C, e, reference);
      PrefixMark(B2B, f, reference);
    }
  }

  /** Printing, routing and parsing a reference number gives back its kind and id. */
  lemma ReferenceRoundTrip(kind: Kind, environment: string, id: nat)
    ensures Resolve(environment, ReferenceNumber(kind, environment, id)) == Ok((kind, id))
  {
    var reference := ReferenceNumber(kind, environment, id);
    var start := Prefix(kind, environment) + "-";
    assert reference[|start|..] == PrintNat(id);
    assert Prefix(kind, environment) <= reference;
    ParseIntPrint(id);
    PrefixesDisjoint(environment, environment, reference);
  }

  /** If one environment followed by a dash starts another one's tail, a dash is left over. */
  lemma LeftoverDash(here: string, there: string, id: nat)
    requires here != there && here + "-" <= there + "-" + PrintNat(id)
    ensures '-' in (there + "-" + PrintNat(id))[|here| + 1..]
  {
    var tail := there + "-" + PrintNat(id);
    assert tail[|here|] == (here + "-")[|here|];
    assert forall i :: |there| < i < |tail| ==> IsDigit(tail[i]);
    assert |here| <= |there|;
    assert here == tail[..|here|] && there == tail[..|there|];
    assert tail[|here| + 1..][|there| - |here| - 1] == '-';
  }

  lemma DropCommonPrefix(common: string, a: string, b: string)
    requires common + a <= common + b
    ensures a <= b && (common + b)[|common + a|..] == b[|a|..]
  {
    assert a == (common + a)[|common|..];
    assert b == (common + b)[|common|..];
  }

  /** A reference number printed in another environment never resolves to an order id (ids start at one). */
  lemma ForeignReferenceRejected(kind: Kind, here: string, there: string, id: nat)
    requires here != there
    ensures var r := Resolve(here, ReferenceNumber(kind, there, id));
            r.Ok? ==> r.value.1 <= 0
  {
    var reference := ReferenceNumber(kind, there, id);
    PrefixesDisjoint(here, there, reference);
    PrefixesDisjoint(there, here, reference);
    assert Prefix(kind, there) <= reference;
    if ParseReference(reference, Prefix(kind, here)).Ok? {
      ForeignParse(kind, here, there, id);
    }
  }

  lemma ForeignParse(kind: Kind, here: string, there: string, id: nat)
    requires here != there
    requires ParseReference(ReferenceNumber(kind, there, id), Prefix(kind, here)).Ok?
    ensures ParseReference(ReferenceNumber(kind, there, id), Prefix(kind, here)).value <= 0
  {
    var common := KindPrefix(kind);
    var tail := there + "-" + PrintNat(id);
    assert ReferenceNumber(kind, there, id) == common + tail;
    assert Prefix(kind, here) + "-" == common + (here + "-");
    DropCommonPrefix(common, here + "-", tail);
    LeftoverDash(here, there, id);
    DashParsesNonPositive(tail[|here| + 1..]);
  }
}
