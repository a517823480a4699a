/** Checking an Authorization header (include/crypto_storage.h; sections 3.4.1 to 3.4.3 of RFC 7616).
    SHA-256 is a parameter: any function to 32 octets. */
module DigestAuth {
  import opened Prelude
  import opened StringUtil

  const SHA_SIZE: nat := 32
  const SCHEME := "Digest"
  const REALM := "user@webui.org"
  const QOP := "auth"
  const ALGORITHM := "SHA-256"
  const HEX_MAP := "0123456789abcdef"
  const MAX_FIELDS: nat := 20

  type Octet = c: char | c as int < 256

  type Digest = d: seq<Octet> | |d| == SHA_SIZE witness seq(SHA_SIZE, _ => '0')

  // ---------------------------------------------------------------- hex

  function HighDigit(c: Octet): char { HEX_MAP[c as int / 16] }

  function LowDigit(c: Octet): char { HEX_MAP[c as int % 16] }

  function Hex(d: seq<Octet>): (h: string)
    ensures |h| == 2 * |d|
  {
    if d == [] then "" else [HighDigit(d[0]), LowDigit(d[0])] + Hex(d[1..])
  }

  lemma HexDigitsDiffer(a: nat, b: nat)
    requires a < 16 && b < 16 && HEX_MAP[a] == HEX_MAP[b]
    ensures a == b
  {
  }

  /** Different octet strings have different hex forms. */
  lemma {:induction false} HexIsInjective(a: seq<Octet>, b: seq<Octet>)
    requires Hex(a) == Hex(b)
    ensures a == b
  {
    assert |a| == |b|;
    if a != [] {
      assert Hex(a)[0] == Hex(b)[0] && Hex(a)[1] == Hex(b)[1];
      assert Hex(a)[2..] == Hex(a[1..]) && Hex(b)[2..] == Hex(b[1..]);
      HexDigitsDiffer(a[0] as int / 16, b[0] as int / 16);
      HexDigitsDiffer(a[0] as int % 16, b[0] as int % 16);
      HexIsInjective(a[1..], b[1..]);
      assert a[0] as int == b[0] as int;
      assert a == [a[0]] + a[1..] && b == [b[0]] + b[1..];
    }
  }

  /** State of a backward expansion of `was` in `s[base..]`: `k` octets are still to be expanded. */
  ghost predicate Expanding(was: seq<Octet>, s: seq<Octet>, base: nat, k: nat)
    requires k <= |was| && base + 2 * |was| <= |s|
  {
    s[base..base + k] == was[..k] && s[base + 2 * k..base + 2 * |was|] == Hex(was[k..])
  }

  lemma ExpandStep(was: seq<Octet>, s: seq<Octet>, t: seq<Octet>, base: nat, k: nat)
    requires 0 < k <= |was| && base + 2 * |was| <= |s| == |t| && Expanding(was, s, base, k)
    requires t == s[base + 2 * k - 1 := LowDigit(was[k - 1])][base + 2 * k - 2 := HighDigit(was[k - 1])]
    ensures Expanding(was, t, base, k - 1)
  {
    assert t[base..base + k - 1] == s[base..base + k][..k - 1];
    assert was[k - 1..][1..] == was[k..];
    assert t[base + 2 * (k - 1)..base + 2 * |was|]
        == [HighDigit(was[k - 1]), LowDigit(was[k - 1])] + s[base + 2 * k..base + 2 * |was|];
  }

  /** One of the two backward loops: the octets at `base` grow into twice as many hex digits in the
      same place. The low digit of an octet is written before the octet is overwritten. */
  method ExpandBlock(storage: array<Octet>, base: nat) returns (d: int)
    requires base + 2 * SHA_SIZE <= storage.Length
    modifies storage
    ensures storage[base..base + 2 * SHA_SIZE] == Hex(old(storage[base..base + SHA_SIZE])) && d == base - 1
    ensures storage[..base] == old(storage[..base])
    ensures storage[base + 2 * SHA_SIZE..] == old(storage[base + 2 * SHA_SIZE..])
  {
    ghost var was := storage[base..base + SHA_SIZE];
    d := base + 2 * SHA_SIZE - 1;
    var c := base + SHA_SIZE - 1;
    while c >= base
      invariant base - 1 <= c < base + SHA_SIZE && d == base + 2 * (c - base) + 1
      invariant Expanding(was, storage[..], base, c - base + 1)
      invariant storage[..base] == old(storage[..base])
      invariant storage[base + 2 * SHA_SIZE..] == old(storage[base + 2 * SHA_SIZE..])
    {
      ExpandOne(storage, base, c, d, was);
      d, c := d - 2, c - 1;
    }
    assert was[0..] == was;
  }

  /** One iteration: the octet at `c` becomes the digits at `d - 1` and `d`. */
  method ExpandOne(storage: array<Octet>, base: nat, c: nat, d: nat, ghost was: seq<Octet>)
    requires base <= c < base + |was| && d == base + 2 * (c - base) + 1 && base + 2 * |was| <= storage.Length
    requires Expanding(was, storage[..], base, c - base + 1)
    modifies storage
    ensures Expanding(was, storage[..], base, c - base)
    ensures storage[..base] == old(storage[..base])
    ensures storage[base + 2 * |was|..] == old(storage[base + 2 * |was|..])
  {
    ghost var before := storage[..];
    assert storage[c] == before[base..c + 1][c - base] == was[c - base];
    storage[d] := LowDigit(storage[c]);
    storage[d - 1] := HighDigit(storage[c]);
    ExpandStep(was, before, storage[..], base, c - base + 1);
    assert storage[..base] == before[..base] && storage[base + 2 * |was|..] == before[base + 2 * |was|..];
  }

  /** Both loops: two digests, the first at 0 and the second at 64, become their hex forms there. */
  method ExpandBoth(storage: array<Octet>)
    requires storage.Length == 4 * SHA_SIZE
    modifies storage
    ensures storage[..2 * SHA_SIZE] == Hex(old(storage[..SHA_SIZE]))
    ensures storage[2 * SHA_SIZE..] == Hex(old(storage[2 * SHA_SIZE..3 * SHA_SIZE]))
  {
    ghost var first, second := storage[..SHA_SIZE], storage[2 * SHA_SIZE..3 * SHA_SIZE];
    ghost var front := storage[..2 * SHA_SIZE];
    var d := ExpandBlock(storage, 2 * SHA_SIZE);
    assert storage[2 * SHA_SIZE..] == storage[2 * SHA_SIZE..4 * SHA_SIZE] == Hex(second);
    assert storage[0..SHA_SIZE] == front[..SHA_SIZE] == first;
    ghost var back := storage[2 * SHA_SIZE..];
    d := ExpandBlock(storage, d - (2 * SHA_SIZE - 1));
    assert storage[0 + 2 * SHA_SIZE..] == back;
    assert storage[0..2 * SHA_SIZE] == storage[..2 * SHA_SIZE];
  }

  // ---------------------------------------------------------------- field parsing

  datatype Fields = Fields(username: string, response: string, nonce: string, cnonce: string, nc: string, uri: string)

  const NO_FIELDS := Fields("", "", "", "", "", "")

  /** Stores one field; a wrong realm, qop or algorithm rejects the header, other keys are ignored. */
  function Assign(f: Fields, key: string, value: string): Option<Fields> {
    if key == "username" then Some(f.(username := value))
    else if key == "realm" then if value == REALM then Some(f) else None
    else if key == "qop" then if value == QOP then Some(f) else None
    else if key == "algorithm" then if value == ALGORITHM then Some(f) else None
    else if key == "response" then Some(f.(response := value))
    else if key == "nonce" then Some(f.(nonce := value))
    else if key == "cnonce" then Some(f.(cnonce := value))
    else if key == "nc" then Some(f.(nc := value))
    else if key == "uri" then Some(f.(uri := value))
    else Some(f)
  }

  function TrimFront(s: string): string {
    if s != "" && s[0] == ' ' then TrimFront(s[1..]) else s
  }

  function TrimBack(s: string): string {
    if s != "" && s[|s| - 1] == ' ' then TrimBack(s[..|s| - 1]) else s
  }

  function Unquote(s: string): string {
    var front := if s != "" && s[0] == '"' then s[1..] else s;
    if front != "" && front[|front| - 1] == '"' then front[..|front| - 1] else front
  }

  function KeyOf(field: string): string { TrimBack(TrimFront(Word(field, '=').word)) }

  function ValueOf(field: string): string { Unquote(Word(field, '=').rest) }

  /** One `key=value` field. */
  datatype Entry = Entry(key: string, value: string)

  function EntryOf(field: string): Entry { Entry(KeyOf(field), ValueOf(field)) }

  /** The fields of a header, from the `i`-th iteration of the field loop on. */
  function Entries(content: string, i: nat): seq<Entry>
    decreases |content|
  {
    var cur := Word(content, ',');
    if cur.word == "" || i >= MAX_FIELDS then [] else [EntryOf(cur.word)] + Entries(cur.rest, i + 1)
  }

  /** Fields stored one after the other, the last one of a key winning. */
  function AssignAll(entries: seq<Entry>, f: Fields): Option<Fields>
    decreases entries
  {
    if entries == [] then Some(f)
    else
      var next := Assign(f, entries[0].key, entries[0].value);
      if next == None then None else AssignAll(entries[1..], next.value)
  }

  function ParseFields(content: string): Option<Fields> {
    AssignAll(Entries(content, 0), NO_FIELDS)
  }

  method CheckFields(content: string) returns (result: Option<Fields>)
    ensures result == ParseFields(content)
  {
    var view := new StringView(content);
    result := Some(NO_FIELDS);
    ghost var at := content;
    var i := 0;
    var cur := view.ExtractWord(',');
    while cur != "" && i < MAX_FIELDS
      invariant fresh(view) && Extracted(cur, view.text) == Word(at, ',') && result.Some?
      invariant ParseFields(content) == AssignAll(Entries(at, i), result.value)
      decreases |at|
    {
      var field := ReadField(cur);
      result := Store(result.value, field, Entries(view.text, i + 1));
      if result == None {
        return;
      }
      at, i := view.text, i + 1;
      cur := view.ExtractWord(',');
    }
  }

  method Store(f: Fields, e: Entry, ghost rest: seq<Entry>) returns (next: Option<Fields>)
    ensures AssignAll([e] + rest, f) == if next == None then None else AssignAll(rest, next.value)
  {
    AssignHead(e, rest, f);
    next := Assign(f, e.key, e.value);
  }

  lemma AssignHead(e: Entry, rest: seq<Entry>, f: Fields)
    ensures AssignAll([e] + rest, f)
         == var next := Assign(f, e.key, e.value); if next == None then None else AssignAll(rest, next.value)
  {
  }

  method ReadField(cur: string) returns (e: Entry)
    ensures e == EntryOf(cur)
  {
    var field := new StringView(cur);
    var key := field.ExtractWord('=');
    key := Trim(key);
    e := Entry(key, Unquote(field.text));
  }

  method Trim(s: string) returns (key: string)
    ensures key == TrimBack(TrimFront(s))
  {
    key := s;
    while key != "" && key[0] == ' '
      invariant TrimFront(key) == TrimFront(s)
      decreases |key|
    {
      key := key[1..];
    }
    while key != "" && key[|key| - 1] == ' '
      invariant TrimBack(key) == TrimBack(TrimFront(s))
      decreases |key|
    {
      key := key[..|key| - 1];
    }
  }

  // ---------------------------------------------------------------- the check

  function A1(username: string, password: string): string {
    username + ":" + REALM + ":" + password
  }

  function A2(verb: string, uri: string): string {
    verb + ":" + uri
  }

  /** The response a client has to give. */
  function Expected(f: Fields, verb: string, password: string, sha: string -> Digest): string {
    Hex(sha(Hex(sha(A1(f.username, password))) + ":" + f.nonce + ":" + f.nc + ":" + f.cnonce + ":" + QOP
            + ":" + Hex(sha(A2(verb, f.uri)))))
  }

  /** The fields of a header that is well enough formed to be checked. */
  function HeaderFields(header: string): Option<Fields> {
    var scheme := Word(header, ' ');
    if scheme.word != SCHEME then None else ParseFields(scheme.rest)
  }

  predicate Accepts(header: string, verb: string, password: string, sha: string -> Digest) {
    var f := HeaderFields(header);
    f.Some? && f.value.response == Expected(f.value, verb, password, sha)
  }

  /** `check_authorization`: the user name of an accepted header, otherwise the empty string. */
  method CheckAuthorization(verb: string, header: string, password: string, sha: string -> Digest)
    returns (user: string)
    ensures user == if Accepts(header, verb, password, sha) then HeaderFields(header).value.username else ""
  {
    var view := new StringView(header);
    var scheme := view.ExtractWord(' ');
    if scheme != SCHEME {
      return "";
    }
    var fields := CheckFields(view.text);
    if fields == None {
      return "";
    }
    var ok := VerifyResponse(fields.value, verb, password, sha);
    return if ok then fields.value.username else "";
  }

  method VerifyResponse(f: Fields, verb: string, password: string, sha: string -> Digest) returns (ok: bool)
    ensures ok <==> f.response == Expected(f, verb, password, sha)
  {
    if |f.response| != 2 * SHA_SIZE {
      return false;
    }
    var digest := ComputeDigest(f, verb, password, sha);
    ok := EqualsHex(digest, f.response);
  }

  /** The digest of the final composition, with the two inner digests expanded in one buffer. */
  method ComputeDigest(f: Fields, verb: string, password: string, sha: string -> Digest) returns (digest: Digest)
    ensures Hex(digest) == Expected(f, verb, password, sha)
  {
    var storage := new Octet[4 * SHA_SIZE];
    var h1, h2 := sha(A1(f.username, password)), sha(A2(verb, f.uri));
    forall i | 0 <= i < SHA_SIZE {
      storage[i] := h1[i];
    }
    forall i | 0 <= i < SHA_SIZE {
      storage[2 * SHA_SIZE + i] := h2[i];
    }
    assert storage[..SHA_SIZE] == h1 && storage[2 * SHA_SIZE..3 * SHA_SIZE] == h2;
    ExpandBoth(storage);
    digest := sha(storage[..2 * SHA_SIZE] + ":" + f.nonce + ":" + f.nc + ":" + f.cnonce + ":" + QOP
                  + ":" + storage[2 * SHA_SIZE..]);
  }

  /** The comparison loop: the response digit by digit against the digest's digits. */
  method EqualsHex(digest: Digest, response: string) returns (equal: bool)
    requires |response| == 2 * SHA_SIZE
    ensures equal <==> response == Hex(digest)
  {
    assert response[0..] == response && digest[0..] == digest;
    for k := 0 to SHA_SIZE
      invariant response == Hex(digest) <==> response[2 * k..] == Hex(digest[k..])
    {
      assert digest[k..][1..] == digest[k + 1..];
      HexSuffix(digest[k..], response[2 * k..]);
      assert response[2 * k..][2..] == response[2 * (k + 1)..];
      if HighDigit(digest[k]) != response[2 * k] || LowDigit(digest[k]) != response[2 * k + 1] {
        return false;
      }
    }
    return true;
  }

  lemma HexSuffix(d: seq<Octet>, r: string)
    requires d != [] && |r| == 2 * |d|
    ensures r == Hex(d) <==> r[0] == HighDigit(d[0]) && r[1] == LowDigit(d[0]) && r[2..] == Hex(d[1..])
  {
    TwoInFront(HighDigit(d[0]), LowDigit(d[0]), Hex(d[1..]), r);
  }

  // ---------------------------------------------------------------- headers as clients write them

  datatype Param = Param(key: string, value: string, quoted: bool)

  /** What a client may write: a key without blanks or separators and a value without quotes or
      newlines. A quoted value may contain commas. */
  ghost predicate IsParam(p: Param) {
    && p.key != "" && (forall i :: 0 <= i < |p.key| ==> IsKeyChar(p.key[i]))
    && (forall i :: 0 <= i < |p.value| ==> IsValueChar(p.value[i]))
    && (!p.quoted && p.value != "" ==> p.value[0] != '=')
  }

  predicate IsKeyChar(c: char) {
    IsValueChar(c) && c != ' ' && c != '=' && c != ','
  }

  predicate IsValueChar(c: char) {
    c != '"' && c != '\r' && c != '\n'
  }

  ghost predicate AreParams(params: seq<Param>) {
    params != [] ==> IsParam(params[0]) && AreParams(params[1..])
  }

  /** The part of a value in front of its first comma. */
  function UpToComma(value: string): string {
    value[..FindEnd(value, ',', 0)]
  }

  predicate HasNoComma(p: Param) {
    UpToComma(p.value) == p.value
  }

  predicate HaveNoComma(params: seq<Param>) {
    params != [] ==> HasNoComma(params[0]) && HaveNoComma(params[1..])
  }

  function Quoted(p: Param): string {
    if p.quoted then "\"" + p.value + "\"" else p.value
  }

  function Written(p: Param): string {
    p.key + ("=" + Quoted(p))
  }

  function WrittenAll(params: seq<Param>): string {
    if params == [] then ""
    else if |params| == 1 then Written(params[0])
    else Written(params[0]) + (", " + WrittenAll(params[1..]))
  }

  function EntriesOf(params: seq<Param>): seq<Entry> {
    if params == [] then [] else [Entry(params[0].key, params[0].value)] + EntriesOf(params[1..])
  }

  /** What can stand in front of a field: nothing, or the blank after a comma. */
  predicate IsLead(s: string) {
    |s| == 0 || (|s| == 1 && s[0] == ' ')
  }

  lemma TrimKey(lead: string, key: string)
    requires IsLead(lead)
    requires key != "" && key[0] != ' ' && key[|key| - 1] != ' '
    ensures TrimBack(TrimFront(lead + key)) == key
  {
  }

  lemma ParamSplits(lead: string, p: Param)
    requires IsParam(p) && IsLead(lead)
    ensures Word(lead + Written(p), '=') == Extracted(lead + p.key, Quoted(p))
  {
    KeyToken(lead, p);
    var tail := ['='] + Quoted(p);
    assert lead + Written(p) == lead + p.key + tail;
    WordBeforeDelimiter(lead + p.key, '=', Quoted(p));
  }

  lemma KeyToken(lead: string, p: Param)
    requires IsParam(p) && IsLead(lead)
    ensures IsToken(lead + p.key, '=')
  {
  }

  lemma UnquoteQuoted(p: Param)
    requires IsParam(p)
    ensures Unquote(Quoted(p)) == p.value
  {
  }

  /** A written parameter, with or without a blank in front, gives back its key and value. */
  lemma ParamIsRead(lead: string, p: Param)
    requires IsParam(p) && IsLead(lead)
    ensures KeyOf(lead + Written(p)) == p.key && ValueOf(lead + Written(p)) == p.value
  {
    ParamSplits(lead, p);
    UnquoteQuoted(p);
    assert p.key[0] != ' ' && p.key[|p.key| - 1] != ' ';
    TrimKey(lead, p.key);
  }

  lemma FieldToken(lead: string, p: Param)
    requires IsParam(p) && IsLead(lead) && HasNoComma(p)
    ensures IsToken(lead + Written(p), ',')
  {
  }

  lemma LastFieldIsTaken(lead: string, p: Param)
    requires IsLead(lead) && IsParam(p) && HasNoComma(p)
    ensures Word(lead + Written(p), ',') == Extracted(lead + Written(p), "")
  {
    var field := lead + Written(p);
    FieldToken(lead, p);
    WordIsToken(field, "", ',');
    assert field + "" == field;
  }

  lemma FieldIsTaken(lead: string, p: Param, more: string)
    requires IsLead(lead) && IsParam(p) && HasNoComma(p)
    ensures Word(lead + (Written(p) + (", " + more)), ',') == Extracted(lead + Written(p), [' '] + more)
  {
    var field, rest := lead + Written(p), [' '] + more;
    FieldToken(lead, p);
    assert ", " + more == [','] + rest;
    ConcatAssociative(lead, Written(p), [','] + rest);
    WordBeforeDelimiter(field, ',', rest);
  }

  /** A parameter's field as it is cut off at the first comma of its value: an opening quote stays
      without its closing one. */
  function CutField(lead: string, p: Param): string {
    lead + p.key + (['='] + (OpenQuote(p) + UpToComma(p.value)))
  }

  lemma CutSplits(lead: string, p: Param)
    requires IsLead(lead) && IsParam(p)
    ensures Word(CutField(lead, p), '=') == Extracted(lead + p.key, OpenQuote(p) + UpToComma(p.value))
  {
    var head := UpToComma(p.value);
    KeyToken(lead, p);
    assert head != "" ==> head[0] == p.value[0];
    WordBeforeDelimiter(lead + p.key, '=', OpenQuote(p) + head);
  }

  lemma UnquoteCut(p: Param)
    requires IsParam(p)
    ensures Unquote(OpenQuote(p) + UpToComma(p.value)) == UpToComma(p.value)
  {
    var head := UpToComma(p.value);
    assert head != "" ==> head[0] == p.value[0] && head[|head| - 1] == p.value[|head| - 1];
    assert p.quoted ==> (OpenQuote(p) + head)[1..] == head;
  }

  lemma CutFieldIsRead(lead: string, p: Param)
    requires IsLead(lead) && IsParam(p)
    ensures EntryOf(CutField(lead, p)) == Entry(p.key, UpToComma(p.value))
  {
    CutSplits(lead, p);
    UnquoteCut(p);
    assert p.key[0] != ' ' && p.key[|p.key| - 1] != ' ';
    TrimKey(lead, p.key);
  }

  lemma CutFieldToken(lead: string, p: Param)
    requires IsLead(lead) && IsParam(p)
    ensures IsToken(CutField(lead, p), ',')
  {
    var field, head := CutField(lead, p), UpToComma(p.value);
    assert forall i :: 0 <= i < |head| ==> head[i] == p.value[i] && !Ends(p.value[i], ',');
    assert field[|lead|] == p.key[0];
  }

  function OpenQuote(p: Param): string { if p.quoted then ['"'] else [] }

  lemma Regroup(lead: string, key: string, eq: string, quote: string, head: string, tail: string, more: string)
    ensures lead + (key + (eq + (quote + (head + tail) + quote)) + more)
         == lead + key + (eq + (quote + head)) + (tail + (quote + more))
  {
  }

  lemma WrittenIsCut(lead: string, p: Param, more: string)
    requires IsParam(p) && !HasNoComma(p)
    ensures UpToComma(p.value) != p.value
    ensures lead + (Written(p) + more)
         == CutField(lead, p) + ([','] + (p.value[|UpToComma(p.value)| + 1..] + (OpenQuote(p) + more)))
  {
    var c := |UpToComma(p.value)|;
    var tail := [','] + p.value[c + 1..];
    assert p.value == UpToComma(p.value) + tail;
    assert Quoted(p) == OpenQuote(p) + p.value + OpenQuote(p);
    Regroup(lead, p.key, ['='], OpenQuote(p), UpToComma(p.value), tail, more);
    ConcatAssociative([','], p.value[c + 1..], OpenQuote(p) + more);
  }

  /** The source splits fields at every comma, quoted or not: a value that contains one is cut off
      in front of it. */
  lemma CommaCutsValue(lead: string, p: Param, more: string)
    requires IsLead(lead) && IsParam(p) && !HasNoComma(p)
    ensures Word(lead + (Written(p) + more), ',').word == CutField(lead, p)
    ensures EntryOf(CutField(lead, p)) == Entry(p.key, UpToComma(p.value)) && UpToComma(p.value) != p.value
  {
    WrittenIsCut(lead, p, more);
    CutFieldToken(lead, p);
    CutFieldIsRead(lead, p);
    var after := p.value[|UpToComma(p.value)| + 1..] + (OpenQuote(p) + more);
    WordIsToken(CutField(lead, p), [','] + after, ',');
  }

  /** The parameters that count from the `i`-th iteration on: a header has at most 20. */
  function Counted(params: seq<Param>, i: nat): seq<Param> {
    if i >= MAX_FIELDS then [] else if i + |params| <= MAX_FIELDS then params else params[..MAX_FIELDS - i]
  }

  /** The parameters that count are read back from the `i`-th iteration on. */
  ghost predicate ReadBack(lead: string, params: seq<Param>, i: nat) {
    Entries(lead + WrittenAll(params), i) == EntriesOf(Counted(params, i))
  }

  /** The first 20 written parameters are read back in order exactly when none of their values has a
      comma. */
  lemma {:induction false} ParamsAreReadIff(lead: string, params: seq<Param>, i: nat)
    requires IsLead(lead) && params != [] && AreParams(params)
    ensures ReadBack(lead, params, i) <==> HaveNoComma(Counted(params, i))
  {
    if HaveNoComma(Counted(params, i)) {
      ParamsAreRead(lead, params, i);
    } else {
      SomeIsCut(lead, params, i);
    }
  }

  lemma {:induction false} CountedStep(params: seq<Param>, i: nat)
    requires params != [] && i < MAX_FIELDS
    ensures Counted(params, i) == [params[0]] + Counted(params[1..], i + 1)
    ensures Counted(params, i)[1..] == Counted(params[1..], i + 1)
    ensures HaveNoComma(Counted(params, i)) <==> HasNoComma(params[0]) && HaveNoComma(Counted(params[1..], i + 1))
  {
    assert Counted(params, i)[1..] == Counted(params[1..], i + 1);
  }

  lemma {:induction false} ParamsAreRead(lead: string, params: seq<Param>, i: nat)
    requires IsLead(lead) && params != []
    requires AreParams(params) && HaveNoComma(Counted(params, i))
    ensures ReadBack(lead, params, i)
    decreases |params|
  {
    if i < MAX_FIELDS {
      CountedStep(params, i);
      if |params| == 1 {
        OnlyIsRead(lead, params, i);
      } else {
        ParamsAreRead([' '], params[1..], i + 1);
        FirstIsRead(lead, params, i);
      }
    }
  }

  lemma {:induction false} CommaIsBehind(params: seq<Param>, i: nat)
    requires params != [] && AreParams(params) && !HaveNoComma(Counted(params, i))
    ensures i < MAX_FIELDS && IsParam(params[0])
    ensures HasNoComma(params[0]) ==>
      |params| > 1 && AreParams(params[1..]) && !HaveNoComma(Counted(params[1..], i + 1))
  {
    if i < MAX_FIELDS {
      CountedStep(params, i);
    }
  }

  lemma {:induction false} SomeIsCut(lead: string, params: seq<Param>, i: nat)
    requires IsLead(lead) && params != []
    requires AreParams(params) && !HaveNoComma(Counted(params, i))
    ensures !ReadBack(lead, params, i)
    decreases |params|
  {
    CommaIsBehind(params, i);
    if HasNoComma(params[0]) {
      SomeIsCut([' '], params[1..], i + 1);
      FirstIsRead(lead, params, i);
    } else {
      FirstIsCut(lead, params, i);
    }
  }

  lemma {:induction false} EntriesStep(content: string, i: nat, word: string, rest: string)
    requires Word(content, ',') == Extracted(word, rest) && word != "" && i < MAX_FIELDS
    ensures Entries(content, i) == [EntryOf(word)] + Entries(rest, i + 1)
  {
  }

  lemma {:induction false} OnlyIsRead(lead: string, params: seq<Param>, i: nat)
    requires IsLead(lead) && |params| == 1 && i < MAX_FIELDS && IsParam(params[0]) && HasNoComma(params[0])
    ensures ReadBack(lead, params, i)
  {
    LastEntry(lead, params[0], i);
    OneCounts(params, i);
  }

  lemma {:induction false} OneCounts(params: seq<Param>, i: nat)
    requires |params| == 1 && i < MAX_FIELDS
    ensures WrittenAll(params) == Written(params[0])
    ensures EntriesOf(Counted(params, i)) == [Entry(params[0].key, params[0].value)]
  {
    assert Counted(params, i) == params && params[1..] == [];
  }

  lemma {:induction false} LastEntry(lead: string, p: Param, i: nat)
    requires IsLead(lead) && i < MAX_FIELDS && IsParam(p) && HasNoComma(p)
    ensures Entries(lead + Written(p), i) == [Entry(p.key, p.value)]
  {
    ParamIsRead(lead, p);
    LastFieldIsTaken(lead, p);
    EntriesStep(lead + Written(p), i, lead + Written(p), "");
    NothingLeft(i + 1);
  }

  lemma NothingLeft(i: nat)
    ensures Entries("", i) == []
  {
  }

  lemma {:induction false} FirstIsRead(lead: string, params: seq<Param>, i: nat)
    requires IsLead(lead) && |params| > 1 && i < MAX_FIELDS && IsParam(params[0]) && HasNoComma(params[0])
    ensures ReadBack(lead, params, i) <==> ReadBack([' '], params[1..], i + 1)
  {
    var p, more := params[0], WrittenAll(params[1..]);
    ParamIsRead(lead, p);
    FieldIsTaken(lead, p, more);
    EntriesStep(lead + WrittenAll(params), i, lead + Written(p), [' '] + more);
    CountedStep(params, i);
    SameTails(Entry(p.key, p.value), Entries([' '] + more, i + 1), EntriesOf(Counted(params[1..], i + 1)));
  }

  lemma {:induction false} FirstIsCut(lead: string, params: seq<Param>, i: nat)
    requires IsLead(lead) && params != [] && i < MAX_FIELDS && IsParam(params[0]) && !HasNoComma(params[0])
    ensures !ReadBack(lead, params, i)
  {
    var p := params[0];
    var more := if |params| == 1 then "" else ", " + WrittenAll(params[1..]);
    assert WrittenAll(params) == Written(p) + more;
    CommaCutsValue(lead, p, more);
    var cur := Word(lead + (Written(p) + more), ',');
    EntriesStep(lead + WrittenAll(params), i, cur.word, cur.rest);
    CountedStep(params, i);
    assert ([EntryOf(cur.word)] + Entries(cur.rest, i + 1))[0] != EntriesOf(Counted(params, i))[0];
  }

  lemma SameTails(e: Entry, a: seq<Entry>, b: seq<Entry>)
    ensures [e] + a == [e] + b <==> a == b
  {
    assert ([e] + a)[1..] == a && ([e] + b)[1..] == b;
  }

  function WrittenHeader(params: seq<Param>): string {
    SCHEME + ([' '] + WrittenAll(params))
  }

  lemma {:induction false} SchemeIsTaken(params: seq<Param>)
    requires params != [] ==> IsParam(params[0])
    ensures Word(WrittenHeader(params), ' ') == Extracted(SCHEME, WrittenAll(params))
  {
    assert params != [] ==> WrittenAll(params)[0] == params[0].key[0];
    SchemeIsToken();
    WordBeforeDelimiter(SCHEME, ' ', WrittenAll(params));
  }

  lemma SchemeIsToken()
    ensures IsToken(SCHEME, ' ')
  {
  }

  lemma {:induction false} HeaderIsRead(params: seq<Param>)
    requires AreParams(params) && HaveNoComma(Counted(params, 0))
    ensures HeaderFields(WrittenHeader(params)) == AssignAll(EntriesOf(Counted(params, 0)), NO_FIELDS)
  {
    SchemeIsTaken(params);
    if params == [] {
      NothingLeft(0);
    } else {
      ParamsAreRead("", params, 0);
      assert "" + WrittenAll(params) == WrittenAll(params);
    }
  }
}
