/** Request and response helpers shared by every endpoint (3DNA/backend/config/Database.php):
    the bearer token of the `Authorization` header, its validation, and the JSON envelope. */
module Requests {
  import opened Wrappers
  import opened PhpValues

  /** `\s` of PCRE outside UTF mode: space, tab, line feed, vertical tab, form feed, carriage return. */
  predicate IsPcreSpace(c: char)
  {
    c == ' ' || c == '\t' || c == '\n' || c == '\U{000B}' || c == '\U{000C}' || c == '\r'
  }

  const Bearer: string := "Bearer"

  /** Length of the longest run of `\s` characters starting at `j`. */
  function SpaceRun(s: string, j: nat): (n: nat)
    requires j <= |s|
    ensures j + n <= |s|
    ensures forall m :: j <= m < j + n ==> IsPcreSpace(s[m])
    ensures j + n == |s| || !IsPcreSpace(s[j + n])
    decreases |s| - j
  {
    if j == |s| || !IsPcreSpace(s[j]) then 0 else 1 + SpaceRun(s, j + 1)
  }

  /** Length of the longest run of `\S` characters starting at `j`. */
  function WordRun(s: string, j: nat): (n: nat)
    requires j <= |s|
    ensures j + n <= |s|
    ensures forall m :: j <= m < j + n ==> !IsPcreSpace(s[m])
    ensures j + n == |s| || IsPcreSpace(s[j + n])
    decreases |s| - j
  {
    if j == |s| || IsPcreSpace(s[j]) then 0 else 1 + WordRun(s, j + 1)
  }

  predicate AllSpace(s: string, lo: nat, hi: nat)
    requires lo <= hi <= |s|
  {
    forall m :: lo <= m < hi ==> IsPcreSpace(s[m])
  }

  predicate NoSpace(s: string, lo: nat, hi: nat)
    requires lo <= hi <= |s|
  {
    forall m :: lo <= m < hi ==> !IsPcreSpace(s[m])
  }

  /** What `/Bearer\s+(\S+)/` means at position `i`: the literal, at least one `\s`, then at
      least one `\S` (some split of the text after `i` fits the pattern). */
  ghost predicate PatternAt(s: string, i: nat)
  {
    && i + |Bearer| <= |s|
    && s[i..i + |Bearer|] == Bearer
    && exists j: nat, k: nat | i + |Bearer| < j < k <= |s| :: AllSpace(s, i + |Bearer|, j) && NoSpace(s, j, k)
  }

  /** The scanner's test at position `i`: the literal, then a non-empty greedy `\s` run that
      stops before the end of the text. */
  predicate MatchesAt(s: string, i: nat)
  {
    && i + |Bearer| <= |s|
    && s[i..i + |Bearer|] == Bearer
    && SpaceRun(s, i + |Bearer|) > 0
    && i + |Bearer| + SpaceRun(s, i + |Bearer|) < |s|
  }

  lemma MatchesAtIffPattern(s: string, i: nat)
    ensures MatchesAt(s, i) <==> PatternAt(s, i)
  {
    var b := i + |Bearer|;
    if MatchesAt(s, i) {
      var j := b + SpaceRun(s, b);
      assert !IsPcreSpace(s[j]);
      assert AllSpace(s, b, j) && NoSpace(s, j, j + 1);
    }
    if PatternAt(s, i) {
      var j: nat, k: nat :| b < j < k <= |s| && AllSpace(s, b, j) && NoSpace(s, j, k);
      SpaceRunStops(s, b, j);
    }
  }

  /** A whitespace run followed by a non-whitespace character is exactly what `SpaceRun` measures. */
  lemma SpaceRunStops(s: string, b: nat, j: nat)
    requires b < j < |s| && AllSpace(s, b, j) && !IsPcreSpace(s[j])
    ensures SpaceRun(s, b) == j - b
  {
    var n := SpaceRun(s, b);
    if b + n < j {
      assert false;
    } else if b + n > j {
      assert false;
    }
  }

  /** The leftmost match position at or after `from`, as an unanchored `preg_match` finds it. */
  function FirstMatch(s: string, from: nat): (r: Option<nat>)
    requires from <= |s|
    ensures r.Some? ==> (from <= r.value < |s| && MatchesAt(s, r.value)
                         && forall k :: from <= k < r.value ==> !MatchesAt(s, k))
    ensures r.None? ==> forall k :: from <= k <= |s| ==> !MatchesAt(s, k)
    decreases |s| - from
  {
    if from == |s| then None
    else if MatchesAt(s, from) then Some(from)
    else FirstMatch(s, from + 1)
  }

  /** Where the capture starts: after "Bearer" and the greedy `\s+`. */
  function TokenStart(s: string, i: nat): nat
    requires MatchesAt(s, i)
  {
    i + |Bearer| + SpaceRun(s, i + |Bearer|)
  }

  /** The first capture group `(\S+)` of a match at `i`: greedy `\s+`, then greedy `\S+`. */
  function Capture(s: string, i: nat): string
    requires MatchesAt(s, i)
  {
    var j := TokenStart(s, i);
    s[j..j + WordRun(s, j)]
  }

  /** The capture is the whole non-whitespace run that starts right after the whitespace
      following "Bearer"; it is non-empty and holds no whitespace. */
  lemma CaptureSpec(s: string, i: nat)
    requires MatchesAt(s, i)
    ensures var tok := Capture(s, i);
      var j := TokenStart(s, i);
      && |tok| > 0
      && (forall c :: c in tok ==> !IsPcreSpace(c))
      && i + |Bearer| < j && j + |tok| <= |s|
      && AllSpace(s, i + |Bearer|, j)
      && s[j..j + |tok|] == tok
      && (j + |tok| == |s| || IsPcreSpace(s[j + |tok|]))
  {
    var j := TokenStart(s, i);
    var tok := Capture(s, i);
    assert !IsPcreSpace(s[j]);
    assert WordRun(s, j) > 0;
    forall c | c in tok ensures !IsPcreSpace(c) {
      var m :| 0 <= m < |tok| && tok[m] == c;
      assert c == s[j + m];
    }
  }

  /** `getAuthToken()`: the request headers are a parameter; the header name is matched exactly. */
  function GetAuthToken(headers: map<string, string>): Option<string>
  {
    if "Authorization" !in headers then None
    else
      var s := headers["Authorization"];
      match FirstMatch(s, 0)
      case None => None
      case Some(i) => Some(Capture(s, i))
  }

  /** No token without the header, or without a match of the pattern anywhere in it. */
  lemma NoTokenSpec(headers: map<string, string>)
    ensures GetAuthToken(headers).None? <==> ("Authorization" !in headers
              || forall i :: 0 <= i <= |headers["Authorization"]| ==> !PatternAt(headers["Authorization"], i))
  {
    if "Authorization" in headers {
      var s := headers["Authorization"];
      var f := FirstMatch(s, 0);
      if f.Some? {
        MatchesAtIffPattern(s, f.value);
      } else {
        forall i | 0 <= i <= |s| ensures !PatternAt(s, i) {
          MatchesAtIffPattern(s, i);
        }
      }
    }
  }

  /** Otherwise the token is the capture of the leftmost position where the pattern matches. */
  lemma TokenSpec(headers: map<string, string>)
    requires GetAuthToken(headers).Some?
    ensures var s := headers["Authorization"];
      exists i: nat :: (
        && MatchesAt(s, i) && PatternAt(s, i)
        && (forall k :: 0 <= k < i ==> !PatternAt(s, k))
        && GetAuthToken(headers).value == Capture(s, i))
  {
    var s := headers["Authorization"];
    var i := FirstMatch(s, 0).value;
    MatchesAtIffPattern(s, i);
    forall k | 0 <= k < i ensures !PatternAt(s, k) {
      MatchesAtIffPattern(s, k);
    }
  }

  /** A returned token is non-empty and has no whitespace. */
  lemma TokenShape(headers: map<string, string>)
    requires GetAuthToken(headers).Some?
    ensures |GetAuthToken(headers).value| > 0
    ensures forall c :: c in GetAuthToken(headers).value ==> !IsPcreSpace(c)
  {
    var s := headers["Authorization"];
    var i := FirstMatch(s, 0).value;
    CaptureSpec(s, i);
  }

  /** The usual header carries its token; the match is unanchored and case-sensitive. */
  lemma GetAuthTokenExamples()
    ensures GetAuthToken(map["Authorization" := "Bearer abc"]) == Some("abc")
    ensures GetAuthToken(map["Authorization" := "bearer abc"]) == None
    ensures GetAuthToken(map["Authorization" := "Bearer "]) == None
    ensures GetAuthToken(map["authorization" := "Bearer abc"]) == None
  {
    var s := "Bearer abc";
    assert s[0..6] == Bearer;
    assert SpaceRun(s, 7) == 0;
    assert SpaceRun(s, 6) == 1;
    assert MatchesAt(s, 0);
    assert FirstMatch(s, 0) == Some(0);
    assert WordRun(s, 10) == 0;
    assert WordRun(s, 9) == 1;
    assert WordRun(s, 8) == 2;
    assert WordRun(s, 7) == 3;
    assert Capture(s, 0) == s[7..10] == "abc";
    var t := "bearer abc";
    forall k | 0 <= k <= |t| ensures !MatchesAt(t, k) {
      if k + |Bearer| <= |t| {
        assert t[k..k + |Bearer|][0] == t[k] != 'B';
      }
    }
    assert FirstMatch(t, 0) == None;
    var u := "Bearer ";
    assert SpaceRun(u, 7) == 0;
    assert SpaceRun(u, 6) == 1;
    assert !MatchesAt(u, 0);
    forall k | 1 <= k <= |u| ensures !MatchesAt(u, k) {
    }
    assert FirstMatch(u, 0) == None;
  }

  /** `validateToken($token)`: `!empty($token)`, where a missing token is PHP's null. */
  function ValidateToken(token: Option<string>): bool
  {
    !Empty(if token.Some? then Str(token.value) else Null)
  }

  /** A token is valid iff it is present and neither "" nor "0". */
  lemma ValidateTokenSpec(token: Option<string>)
    ensures ValidateToken(token) <==> token.Some? && token.value != "" && token.value != "0"
  {
    if token.Some? {
      EmptyIffBlankString(Str(token.value));
    }
  }

  /** Every token `getAuthToken` returns is valid except "0". */
  lemma ExtractedTokenValid(headers: map<string, string>)
    ensures ValidateToken(GetAuthToken(headers)) <==> (GetAuthToken(headers).Some? && GetAuthToken(headers).value != "0")
  {
    ValidateTokenSpec(GetAuthToken(headers));
    if GetAuthToken(headers).Some? {
      TokenShape(headers);
    }
  }

  /** A value in the response envelope: the two fixed entries, or a payload from `$data`. */
  datatype Entry<D> = Flag(bool) | Text(string) | Payload(D)

  type Envelope<D> = seq<(string, Entry<D>)>

  function Keys<E>(a: seq<(string, E)>): (r: seq<string>)
    ensures |r| == |a| && forall i :: 0 <= i < |a| ==> r[i] == a[i].0
  {
    if a == [] then [] else [a[0].0] + Keys(a[1..])
  }

  predicate UniqueKeys<E>(a: seq<(string, E)>)
  {
    forall i, j :: 0 <= i < j < |a| ==> a[i].0 != a[j].0
  }

  function Lookup<E>(a: seq<(string, E)>, k: string): (r: Option<E>)
    ensures r.None? <==> k !in Keys(a)
  {
    if a == [] then None else if a[0].0 == k then Some(a[0].1) else Lookup(a[1..], k)
  }

  function Replace<E>(a: seq<(string, E)>, k: string, v: E): (r: seq<(string, E)>)
    ensures |r| == |a| && forall i :: 0 <= i < |a| ==> r[i] == (if a[i].0 == k then (k, v) else a[i])
  {
    if a == [] then [] else [if a[0].0 == k then (k, v) else a[0]] + Replace(a[1..], k, v)
  }

  /** PHP array assignment `$a[$k] = $v` on a string key: an existing key keeps its place and
      takes the new value, a new key goes at the end. */
  function Put<E>(a: seq<(string, E)>, k: string, v: E): (r: seq<(string, E)>)
    ensures k in Keys(a) ==> (|r| == |a| && forall i :: 0 <= i < |a| ==> r[i] == (if a[i].0 == k then (k, v) else a[i]))
    ensures k !in Keys(a) ==> r == a + [(k, v)]
  {
    if k in Keys(a) then Replace(a, k, v) else a + [(k, v)]
  }

  function Spread<D>(env: Envelope<D>, data: seq<(string, D)>): Envelope<D>
    decreases |data|
  {
    if data == [] then env else Spread(Put(env, data[0].0, Payload(data[0].1)), data[1..])
  }

  /** `sendResponse($success, $message, $data)` before `json_encode`: `success`, `message`, then
      `...$data`, whose string keys overwrite equal keys. */
  function SendResponse<D>(success: bool, message: string, data: seq<(string, D)>): Envelope<D>
  {
    Spread(Head(success, message), data)
  }

  /** The two fixed entries `success` and `message`, in that order. */
  function Head<D>(success: bool, message: string): Envelope<D>
  {
    [("success", Flag(success)), ("message", Text(message))]
  }

  lemma HeadUnique<D>(success: bool, message: string)
    ensures UniqueKeys(Head<D>(success, message))
  {
    assert "success"[0] != "message"[0];
  }

  function Payloads<D>(data: seq<(string, D)>): (r: Envelope<D>)
    ensures |r| == |data| && forall i :: 0 <= i < |data| ==> r[i] == (data[i].0, Payload(data[i].1))
  {
    if data == [] then [] else [(data[0].0, Payload(data[0].1))] + Payloads(data[1..])
  }

  lemma PutKeys<E>(a: seq<(string, E)>, k: string, v: E, key: string)
    ensures key in Keys(Put(a, k, v)) <==> key in Keys(a) || key == k
  {
    var r := Put(a, k, v);
    if k in Keys(a) {
      assert Keys(r) == Keys(a) by {
        forall i | 0 <= i < |a| ensures Keys(r)[i] == Keys(a)[i] {
        }
      }
    } else {
      assert Keys(r) == Keys(a) + [k];
    }
  }

  /** With unique keys a lookup finds the one entry with that key. */
  lemma {:induction false} LookupUnique<E>(a: seq<(string, E)>, i: nat)
    requires UniqueKeys(a) && i < |a|
    ensures Lookup(a, a[i].0) == Some(a[i].1)
  {
    if i > 0 {
      assert a[0].0 != a[i].0;
      assert UniqueKeys(a[1..]);
      assert a[1..][i - 1] == a[i];
      LookupUnique(a[1..], i - 1);
    }
  }

  lemma PutUnique<E>(a: seq<(string, E)>, k: string, v: E)
    requires UniqueKeys(a)
    ensures UniqueKeys(Put(a, k, v))
  {
    var r := Put(a, k, v);
    forall i, j | 0 <= i < j < |r| ensures r[i].0 != r[j].0 {
      if j == |a| {
        assert a[i].0 in Keys(a);
      }
    }
  }

  lemma PutLookup<E>(a: seq<(string, E)>, k: string, v: E, key: string)
    requires UniqueKeys(a)
    ensures Lookup(Put(a, k, v), key) == if key == k then Some(v) else Lookup(a, key)
  {
    var r := Put(a, k, v);
    PutUnique(a, k, v);
    PutKeys(a, k, v, key);
    if key !in Keys(r) {
      assert key != k && key !in Keys(a);
    } else if key == k {
      var i :| 0 <= i < |r| && r[i].0 == key;
      LookupUnique(r, i);
      assert r[i] == (k, v);
    } else {
      var i :| 0 <= i < |r| && r[i].0 == key;
      assert i < |a| && r[i] == a[i];
      LookupUnique(r, i);
      LookupUnique(a, i);
    }
  }

  lemma {:induction false} SpreadUnique<D>(env: Envelope<D>, data: seq<(string, D)>)
    requires UniqueKeys(env)
    ensures UniqueKeys(Spread(env, data))
    decreases |data|
  {
    if data != [] {
      PutUnique(env, data[0].0, Payload(data[0].1));
      SpreadUnique(Put(env, data[0].0, Payload(data[0].1)), data[1..]);
    }
  }

  /** Keys the data does not mention keep their value. */
  lemma {:induction false} SpreadOther<D>(env: Envelope<D>, data: seq<(string, D)>, key: string)
    requires UniqueKeys(env)
    requires key !in Keys(data)
    ensures Lookup(Spread(env, data), key) == Lookup(env, key)
    decreases |data|
  {
    if data != [] {
      var next := Put(env, data[0].0, Payload(data[0].1));
      PutUnique(env, data[0].0, Payload(data[0].1));
      PutLookup(env, data[0].0, Payload(data[0].1), key);
      assert key != data[0].0;
      assert key !in Keys(data[1..]) by {
        forall i | 0 <= i < |data[1..]| ensures data[1..][i].0 != key {
          assert data[1..][i] == data[i + 1];
        }
      }
      SpreadOther(next, data[1..], key);
    }
  }

  /** Each key of unique-keyed data carries its data value. */
  lemma {:induction false} SpreadData<D>(env: Envelope<D>, data: seq<(string, D)>, i: nat)
    requires UniqueKeys(env) && UniqueKeys(data) && i < |data|
    ensures Lookup(Spread(env, data), data[i].0) == Some(Payload(data[i].1))
    decreases |data|
  {
    var next := Put(env, data[0].0, Payload(data[0].1));
    PutUnique(env, data[0].0, Payload(data[0].1));
    assert UniqueKeys(data[1..]);
    if i == 0 {
      assert data[0].0 !in Keys(data[1..]) by {
        forall m | 0 <= m < |data[1..]| ensures data[1..][m].0 != data[0].0 {
          assert data[1..][m] == data[m + 1];
        }
      }
      SpreadOther(next, data[1..], data[0].0);
      PutLookup(env, data[0].0, Payload(data[0].1), data[0].0);
    } else {
      assert data[1..][i - 1] == data[i];
      SpreadData(next, data[1..], i - 1);
    }
  }

  /** No key of `data` is a key of `env`. */
  predicate Disjoint<D>(env: Envelope<D>, data: seq<(string, D)>)
  {
    forall i, j :: 0 <= i < |data| && 0 <= j < |env| ==> data[i].0 != env[j].0
  }

  /** Spreading data whose keys are all new appends it in order. */
  lemma {:induction false} SpreadFresh<D>(env: Envelope<D>, data: seq<(string, D)>)
    requires Disjoint(env, data) && UniqueKeys(data)
    ensures Spread(env, data) == env + Payloads(data)
    decreases |data|
  {
    if data != [] {
      var head := (data[0].0, Payload(data[0].1));
      var next := env + [head];
      SpreadStep(env, data);
      FreshTail(env, data);
      assert UniqueKeys(data[1..]);
      SpreadFresh(next, data[1..]);
      PayloadsCons(data);
      Reassociate(env, head, Payloads(data[1..]));
    }
  }

  lemma PayloadsCons<D>(data: seq<(string, D)>)
    requires data != []
    ensures Payloads(data) == [(data[0].0, Payload(data[0].1))] + Payloads(data[1..])
  {
  }

  lemma Reassociate<T>(a: seq<T>, x: T, b: seq<T>)
    ensures (a + [x]) + b == a + ([x] + b)
  {
  }

  lemma SpreadStep<D>(env: Envelope<D>, data: seq<(string, D)>)
    requires data != [] && Disjoint(env, data)
    ensures Spread(env, data) == Spread(env + [(data[0].0, Payload(data[0].1))], data[1..])
  {
  }

  lemma FreshTail<D>(env: Envelope<D>, data: seq<(string, D)>)
    requires data != [] && Disjoint(env, data) && UniqueKeys(data)
    ensures Disjoint(env + [(data[0].0, Payload(data[0].1))], data[1..])
  {
    var next := env + [(data[0].0, Payload(data[0].1))];
    forall i, j | 0 <= i < |data[1..]| && 0 <= j < |next| ensures data[1..][i].0 != next[j].0 {
      assert data[1..][i] == data[i + 1];
      if j < |env| {
        assert next[j] == env[j];
      }
    }
  }

  /** The envelope always has `success` and `message` and every key of the data, each key once;
      each data key carries its data value and, unless the data overrides them, `success` and
      `message` carry the arguments. */
  lemma SendResponseSpec<D>(success: bool, message: string, data: seq<(string, D)>)
    requires UniqueKeys(data)
    ensures var env := SendResponse(success, message, data);
      && UniqueKeys(env)
      && Lookup(env, "success").Some? && Lookup(env, "message").Some?
      && ("success" !in Keys(data) ==> Lookup(env, "success") == Some(Flag(success)))
      && ("message" !in Keys(data) ==> Lookup(env, "message") == Some(Text(message)))
      && (forall i :: 0 <= i < |data| ==> Lookup(env, data[i].0) == Some(Payload(data[i].1)))
  {
    var base: Envelope<D> := Head(success, message);
    HeadUnique<D>(success, message);
    SpreadUnique(base, data);
    SpreadAllData(base, data);
    FixedKey(base, data, "success", 0);
    FixedKey(base, data, "message", 1);
  }

  lemma SpreadAllData<D>(base: Envelope<D>, data: seq<(string, D)>)
    requires UniqueKeys(base) && UniqueKeys(data)
    ensures forall i :: 0 <= i < |data| ==> Lookup(Spread(base, data), data[i].0) == Some(Payload(data[i].1))
  {
    forall i | 0 <= i < |data| ensures Lookup(Spread(base, data), data[i].0) == Some(Payload(data[i].1)) {
      SpreadData(base, data, i);
    }
  }

  lemma FixedKey<D>(base: Envelope<D>, data: seq<(string, D)>, key: string, at: nat)
    requires UniqueKeys(base) && UniqueKeys(data) && at < |base| && base[at].0 == key
    ensures Lookup(Spread(base, data), key).Some?
    ensures key !in Keys(data) ==> Lookup(Spread(base, data), key) == Some(base[at].1)
  {
    LookupUnique(base, at);
    if key in Keys(data) {
      var i :| 0 <= i < |data| && data[i].0 == key;
      SpreadData(base, data, i);
    } else {
      SpreadOther(base, data, key);
    }
  }

  /** Without colliding keys the envelope is `success`, `message`, then the data in its order. */
  lemma SendResponseLayout<D>(success: bool, message: string, data: seq<(string, D)>)
    requires UniqueKeys(data)
    requires "success" !in Keys(data) && "message" !in Keys(data)
    ensures SendResponse(success, message, data)
         == [("success", Flag(success)), ("message", Text(message))] + Payloads(data)
  {
    var base: Envelope<D> := Head(success, message);
    forall i, j | 0 <= i < |data| && 0 <= j < |base| ensures data[i].0 != base[j].0 {
      assert Keys(data)[i] == data[i].0;
    }
    SpreadFresh(base, data);
  }
}
