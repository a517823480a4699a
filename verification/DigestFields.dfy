/** Which values of an Authorization header the digest check uses, and for what (section 3.4.1 of
    RFC 7616), in terms of the parameters the client wrote. */
module DigestFields {
  import opened Prelude
  import opened DigestAuth

  /** Parameter `k` has this key, and no later one has. */
  predicate IsLast(params: seq<Param>, key: string, k: nat)
    requires k < |params|
  {
    params[k].key == key && forall j :: k < j < |params| ==> params[j].key != key
  }

  /** The value of the last parameter with this key, or else `other`. */
  function LastValue(params: seq<Param>, key: string, other: string): (r: string)
    ensures (forall k :: 0 <= k < |params| ==> params[k].key != key) ==> r == other
    ensures forall k :: 0 <= k < |params| && IsLast(params, key, k) ==> r == params[k].value
    decreases params
  {
    if params == [] then other
    else LastValue(params[1..], key, if params[0].key == key then params[0].value else other)
  }

  /** The parameter names another realm, quality of protection or algorithm than this server's. */
  predicate IsForeign(p: Param) {
    || (p.key == "realm" && p.value != "user@webui.org")
    || (p.key == "qop" && p.value != "auth")
    || (p.key == "algorithm" && p.value != "SHA-256")
  }

  predicate SomeForeign(params: seq<Param>) {
    exists k :: 0 <= k < |params| && IsForeign(params[k])
  }

  lemma {:induction false} ForeignHeadOrTail(params: seq<Param>)
    requires params != []
    ensures SomeForeign(params) <==> IsForeign(params[0]) || SomeForeign(params[1..])
  {
    if SomeForeign(params[1..]) {
      var k :| 0 <= k < |params[1..]| && IsForeign(params[1..][k]);
      assert IsForeign(params[k + 1]);
    }
    if k :| 0 <= k < |params| && IsForeign(params[k]) && k > 0 {
      assert IsForeign(params[1..][k - 1]);
    }
  }

  /** The six fields as the last parameters with their keys say, or as they were. */
  function Looked(params: seq<Param>, f: Fields): Fields {
    Fields(LastValue(params, "username", f.username), LastValue(params, "response", f.response),
           LastValue(params, "nonce", f.nonce), LastValue(params, "cnonce", f.cnonce),
           LastValue(params, "nc", f.nc), LastValue(params, "uri", f.uri))
  }

  lemma {:induction false} StoredAreLooked(params: seq<Param>, f: Fields)
    ensures AssignAll(EntriesOf(params), f) == if SomeForeign(params) then None else Some(Looked(params, f))
    decreases params
  {
    if params != [] {
      var p := params[0];
      var next := Assign(f, p.key, p.value);
      ForeignHeadOrTail(params);
      AssignHead(Entry(p.key, p.value), EntriesOf(params[1..]), f);
      if next.Some? {
        StoredAreLooked(params[1..], next.value);
        LookedStep(params, f);
      }
    }
  }

  lemma {:induction false} LookedStep(params: seq<Param>, f: Fields)
    requires params != [] && !IsForeign(params[0])
    ensures var next := Assign(f, params[0].key, params[0].value);
      next.Some? && Looked(params, f) == Looked(params[1..], next.value)
  {
  }

  /** A header has at most 20 parameters that count. */
  function First20(params: seq<Param>): seq<Param> {
    if |params| <= 20 then params else params[..20]
  }

  /** The fields of a header written from parameters, of which the first 20 count and have no commas:
      each is the value of the last of these with its key, or empty. The header is refused exactly when
      one of them names another realm, quality of protection or algorithm. */
  lemma {:induction false} WrittenFields(header: string, params: seq<Param>)
    requires AreParams(params) && HaveNoComma(First20(params)) && header == "Digest " + WrittenAll(params)
    ensures var counted := First20(params);
      HeaderFields(header) ==
      if SomeForeign(counted) then None
      else Some(Fields(LastValue(counted, "username", ""), LastValue(counted, "response", ""),
                       LastValue(counted, "nonce", ""), LastValue(counted, "cnonce", ""),
                       LastValue(counted, "nc", ""), LastValue(counted, "uri", "")))
  {
    assert header == WrittenHeader(params) && First20(params) == Counted(params, 0);
    HeaderIsRead(params);
    StoredAreLooked(First20(params), NO_FIELDS);
  }

  /** The response section 3.4.1 asks for, with qop "auth" and SHA-256. */
  function RequestDigest(user: string, uri: string, nonce: string, nc: string, cnonce: string,
                         verb: string, password: string, sha: string -> Digest): string {
    var ha1 := Hex(sha(user + ":" + "user@webui.org" + ":" + password));
    var ha2 := Hex(sha(verb + ":" + uri));
    Hex(sha(ha1 + ":" + nonce + ":" + nc + ":" + cnonce + ":" + "auth" + ":" + ha2))
  }

  /** Nothing is foreign, and the response is the digest over the user, nonce, count, client nonce and
      URI that the parameters name. */
  predicate IsRight(params: seq<Param>, verb: string, password: string, sha: string -> Digest) {
    && !SomeForeign(params)
    && LastValue(params, "response", "")
       == RequestDigest(LastValue(params, "username", ""), LastValue(params, "uri", ""),
                        LastValue(params, "nonce", ""), LastValue(params, "nc", ""),
                        LastValue(params, "cnonce", ""), verb, password, sha)
  }

  /** So such a header is accepted exactly when it is right, for the user it names. */
  lemma {:induction false} WrittenHeaderIsChecked(header: string, params: seq<Param>, verb: string,
                                                  password: string, sha: string -> Digest)
    requires AreParams(params) && HaveNoComma(First20(params)) && header == "Digest " + WrittenAll(params)
    ensures Accepts(header, verb, password, sha) <==> IsRight(First20(params), verb, password, sha)
    ensures Accepts(header, verb, password, sha) ==>
      HeaderFields(header).value.username == LastValue(First20(params), "username", "")
  {
    WrittenFields(header, params);
  }

  /** The check itself, on such a header: the user's name or nothing. */
  method CheckWritten(params: seq<Param>, verb: string, password: string, sha: string -> Digest)
    returns (user: string)
    requires AreParams(params) && HaveNoComma(First20(params))
    ensures user == if IsRight(First20(params), verb, password, sha)
                    then LastValue(First20(params), "username", "") else ""
  {
    var header := "Digest " + WrittenAll(params);
    WrittenHeaderIsChecked(header, params, verb, password, sha);
    user := CheckAuthorization(verb, header, password, sha);
  }

  // ---------------------------------------------------------------- blanks around keys

  predicate AreBlanks(s: string) {
    forall i :: 0 <= i < |s| ==> s[i] == ' '
  }

  /** Blanks around a key are dropped, those inside it stay. */
  lemma {:induction false} KeysAreTrimmed(before: string, key: string, after: string)
    requires AreBlanks(before) && AreBlanks(after)
    requires key != "" ==> key[0] != ' ' && key[|key| - 1] != ' '
    ensures TrimBack(TrimFront(before + key + after)) == key
  {
    FrontIsTrimmed(before, key, after);
    if key != "" {
      BackIsTrimmed(key, after);
    } else {
      assert TrimFront(before + after) == "" by { OnlyBlanks(before + after); }
      assert before + key + after == before + after;
    }
  }

  lemma {:induction false} OnlyBlanks(s: string)
    requires AreBlanks(s)
    ensures TrimFront(s) == ""
  {
    if s != "" {
      OnlyBlanks(s[1..]);
    }
  }

  lemma {:induction false} FrontIsTrimmed(before: string, key: string, after: string)
    requires AreBlanks(before) && (key != "" ==> key[0] != ' ')
    ensures key != "" ==> TrimFront(before + key + after) == key + after
  {
    if key != "" {
      if before == "" {
        assert before + key + after == key + after;
      } else {
        FrontIsTrimmed(before[1..], key, after);
        assert (before + key + after)[1..] == before[1..] + key + after;
      }
    }
  }

  lemma {:induction false} BackIsTrimmed(key: string, after: string)
    requires AreBlanks(after) && key != "" && key[|key| - 1] != ' '
    ensures TrimBack(key + after) == key
    decreases |after|
  {
    var n := |after|;
    if n == 0 {
      assert key + after == key;
    } else {
      BackIsTrimmed(key, after[..n - 1]);
      assert (key + after)[..|key + after| - 1] == key + after[..n - 1];
    }
  }

  // ---------------------------------------------------------------- hex digits

  /** The value of a lowercase hex digit. */
  function DigitValue(c: char): int {
    if '0' <= c <= '9' then c as int - '0' as int
    else if 'a' <= c <= 'f' then c as int - 'a' as int + 10
    else -1
  }

  lemma DigitsOf(c: Octet)
    ensures DigitValue(HighDigit(c)) * 16 + DigitValue(LowDigit(c)) == c as int
    ensures 0 <= DigitValue(LowDigit(c)) < 16 && 0 <= DigitValue(HighDigit(c)) < 16
  {
    DigitOf(c as int / 16);
    DigitOf(c as int % 16);
  }

  lemma DigitOf(n: nat)
    requires n < 16
    ensures DigitValue(HEX_MAP[n]) == n
  {
  }

  /** Two lowercase digits for each octet, the higher one first. */
  lemma {:induction false} HexReads(d: seq<Octet>, k: nat)
    requires k < |d|
    ensures |Hex(d)| == 2 * |d|
    ensures 0 <= DigitValue(Hex(d)[2 * k]) < 16 && 0 <= DigitValue(Hex(d)[2 * k + 1]) < 16
    ensures DigitValue(Hex(d)[2 * k]) * 16 + DigitValue(Hex(d)[2 * k + 1]) == d[k] as int
    decreases k
  {
    DigitsOf(d[0]);
    if k > 0 {
      HexReads(d[1..], k - 1);
      assert Hex(d)[2..] == Hex(d[1..]);
    }
  }
}
