/**
 * The authentication decision the fetch client takes on every response, as a pure step
 * over the request options. Transport, streams, cookies and promises are not modelled:
 * a step consumes one response and either sends the next request (`Retry`), settles the
 * request (`Resolved`) or throws inside the response callback (`Failed`).
 */
module Fetch {
  import opened Wrappers
  import opened Buffers
  import opened Hash
  import opened Type2
  import opened Ntlm
  import opened Type3

  // ---------------------------------------------------------------------------
  // Options and responses
  // ---------------------------------------------------------------------------

  /** An http(s) agent; the client creates a keep-alive one for NTLM and destroys it on resolve. */
  datatype Agent = Agent(keepAlive: bool, destroyed: bool)

  /** The request options the client reads and mutates; `None` is an absent property. */
  datatype Options = Options(
    user: Option<JsString>,
    pwd: Option<JsString>,
    workstation: Option<JsString>,
    domain: Option<JsString>,
    httpMethod: Option<string>,
    headers: Option<map<string, string>>,
    authMethod: Option<seq<string>>,
    agent: Option<Agent>)

  /** What the client reads from a response: the status code and the `www-authenticate` header. */
  datatype Response = Response(statusCode: Option<int>, wwwAuthenticate: Option<string>)

  /** The scheme tags the client records in `authMethod`. */
  const NtlmTag: string := "ntlm"
  const BasicTag: string := "basic"

  const AuthorizationHeader: string := "Authorization"

  /** JavaScript truthiness of an optional string: present and non-empty. */
  predicate Truthy(s: Option<seq<char>>) {
    s.Some? && s.value != []
  }

  /** `options.user && options.pwd`. */
  predicate HasCredentials(o: Options) {
    o.user.Some? && o.user.value != [] && o.pwd.Some? && o.pwd.value != []
  }

  /** `options.authMethod?.includes(tag)` is truthy. */
  predicate Attempted(o: Options, tag: string) {
    o.authMethod.Some? && tag in o.authMethod.value
  }

  /** `options.headers?.['Authorization']` is truthy. */
  predicate HasAuthorization(o: Options) {
    o.headers.Some? && AuthorizationHeader in o.headers.value && o.headers.value[AuthorizationHeader] != []
  }

  /** `x || ''` for an optional string. */
  function OrEmpty(s: Option<JsString>): JsString {
    if s.Some? then s.value else []
  }

  // ---------------------------------------------------------------------------
  // setHeaders and deleteCredentials
  // ---------------------------------------------------------------------------

  /** `setHeaders` without the cookie jar: absent headers become `{}`, an absent `authMethod` becomes `[]`. */
  function SetHeaders(o: Options): (r: Options)
    ensures r.headers.Some? && r.authMethod.Some?
    ensures o.headers.Some? ==> r.headers == o.headers
    ensures o.headers.None? ==> r.headers.value == map[]
    ensures o.authMethod.Some? ==> r.authMethod == o.authMethod
    ensures o.authMethod.None? ==> r.authMethod.value == []
    ensures r.(headers := o.headers, authMethod := o.authMethod) == o
  {
    o.(headers := if o.headers.Some? then o.headers else Some(map[]),
       authMethod := if o.authMethod.Some? then o.authMethod else Some([]))
  }

  /** Defaulting twice is defaulting once, and it changes none of the guards of the decision. */
  lemma SetHeadersIdempotent(o: Options)
    ensures SetHeaders(SetHeaders(o)) == SetHeaders(o)
    ensures HasCredentials(SetHeaders(o)) == HasCredentials(o)
    ensures HasAuthorization(SetHeaders(o)) == HasAuthorization(o)
    ensures forall tag :: Attempted(SetHeaders(o), tag) == Attempted(o, tag)
  {
  }

  /** `deleteCredentials`: user, password, workstation and domain are removed; nothing else changes. */
  function DeleteCredentials(o: Options): (r: Options)
    ensures !HasCredentials(r)
    ensures r.user.None? && r.pwd.None? && r.workstation.None? && r.domain.None?
    ensures r.(user := o.user, pwd := o.pwd, workstation := o.workstation, domain := o.domain) == o
  {
    o.(user := None, pwd := None, workstation := None, domain := None)
  }

  /** The options `setOptions` hands to the client: credentials set, method defaulted to GET, no Authorization. */
  function InitialOptions(o: Options, user: JsString, pwd: JsString, workstation: Option<JsString>,
                          domain: Option<JsString>): (r: Options)
    ensures r.user == Some(user) && r.pwd == Some(pwd)
    ensures r.workstation == workstation && r.domain == domain
    ensures Truthy(o.httpMethod) ==> r.httpMethod == o.httpMethod
    ensures !Truthy(o.httpMethod) ==> r.httpMethod == Some("GET")
    ensures r.headers.Some? && !HasAuthorization(r)
    ensures o.headers.Some? ==> r.headers.value == o.headers.value - {AuthorizationHeader}
    ensures o.headers.None? ==> r.headers.value == map[]
    ensures r.authMethod == o.authMethod && r.agent == o.agent
  {
    var headers := if o.headers.Some? then o.headers.value else map[];
    o.(user := Some(user), pwd := Some(pwd), workstation := workstation, domain := domain,
       httpMethod := if Truthy(o.httpMethod) then o.httpMethod else Some("GET"),
       headers := Some(headers - {AuthorizationHeader}))
  }

  // ---------------------------------------------------------------------------
  // getAuthMethods
  // ---------------------------------------------------------------------------

  /** `s.split(sep)`: the pieces between separators, always at least one. */
  function SplitOn(s: string, sep: char): (r: seq<string>)
    ensures |r| >= 1
    decreases |s|
  {
    if s == [] then [[]]
    else if s[0] == sep then [[]] + SplitOn(s[1..], sep)
    else
      var rest := SplitOn(s[1..], sep);
      [[s[0]] + rest[0]] + rest[1..]
  }

  /** No piece contains the separator. */
  lemma {:induction false} SplitOnSeparatorFree(s: string, sep: char)
    ensures forall i :: 0 <= i < |SplitOn(s, sep)| ==> sep !in SplitOn(s, sep)[i]
    decreases |s|
  {
    if s != [] {
      SplitOnSeparatorFree(s[1..], sep);
      var rest := SplitOn(s[1..], sep);
      var r := SplitOn(s, sep);
      if s[0] == sep {
        assert forall i :: 1 <= i < |r| ==> r[i] == rest[i - 1];
      } else {
        assert forall i :: 1 <= i < |r| ==> r[i] == rest[i];
        assert r[0] == [s[0]] + rest[0];
      }
    }
  }

  /** `parts.join(sep)`. */
  function JoinWith(parts: seq<string>, sep: char): string
    requires |parts| >= 1
    decreases |parts|
  {
    if |parts| == 1 then parts[0] else parts[0] + [sep] + JoinWith(parts[1..], sep)
  }

  /** Joining the pieces restores the text: splitting loses nothing but the separators. */
  lemma {:induction false} JoinSplit(s: string, sep: char)
    ensures JoinWith(SplitOn(s, sep), sep) == s
    decreases |s|
  {
    if s == [] {
    } else if s[0] == sep {
      JoinSplit(s[1..], sep);
      assert [sep] + s[1..] == s;
    } else {
      var rest := SplitOn(s[1..], sep);
      JoinSplit(s[1..], sep);
      var r := SplitOn(s, sep);
      assert r[0] == [s[0]] + rest[0] && r[1..] == rest[1..];
      if |rest| == 1 {
        assert [s[0]] + s[1..] == s;
      } else {
        assert JoinWith(rest, sep) == rest[0] + [sep] + JoinWith(rest[1..], sep);
        assert [s[0]] + s[1..] == s;
      }
    }
  }

  /** Splitting a join of separator-free pieces gives the pieces back. */
  lemma {:induction false} SplitJoin(parts: seq<string>, sep: char)
    requires |parts| >= 1
    requires forall i :: 0 <= i < |parts| ==> sep !in parts[i]
    ensures SplitOn(JoinWith(parts, sep), sep) == parts
    decreases |parts|, |parts[0]|
  {
    var p := parts[0];
    if p == [] {
      if |parts| == 1 {
      } else {
        var s := [sep] + JoinWith(parts[1..], sep);
        assert JoinWith(parts, sep) == s;
        assert s[1..] == JoinWith(parts[1..], sep);
        SplitJoin(parts[1..], sep);
        assert [[]] + parts[1..] == parts;
      }
    } else {
      var s := JoinWith(parts, sep);
      var shorter := [p[1..]] + parts[1..];
      assert shorter[1..] == parts[1..];
      assert JoinWith(shorter, sep) == s[1..] by {
        if |parts| == 1 {
        } else {
          assert s == p + [sep] + JoinWith(parts[1..], sep);
          assert s[1..] == p[1..] + [sep] + JoinWith(parts[1..], sep);
        }
      }
      assert s[0] == p[0];
      SplitJoin(shorter, sep);
      assert [p[0]] + p[1..] == p;
      assert [[p[0]] + p[1..]] + parts[1..] == parts;
    }
  }

  /** Text without white space at either end. */
  predicate IsTrimmed(s: string) {
    s == [] || (!IsJsSpace(s[0]) && !IsJsSpace(s[|s| - 1]))
  }

  /** `String.prototype.trim`: drops the white space (and line terminators) at both ends. */
  function Trim(s: string): (r: string)
    ensures IsTrimmed(r)
    ensures IsTrimmed(s) ==> r == s
    decreases |s|
  {
    if s == [] then []
    else if IsJsSpace(s[0]) then Trim(s[1..])
    else if IsJsSpace(s[|s| - 1]) then Trim(s[..|s| - 1])
    else s
  }

  /** Everything of `s` outside `s[i..j]` is white space. */
  predicate SpaceOutside(s: string, i: nat, j: nat)
    requires i <= j <= |s|
  {
    (forall k :: 0 <= k < i ==> IsJsSpace(s[k])) && (forall k :: j <= k < |s| ==> IsJsSpace(s[k]))
  }

  /** Dropping a leading white-space character keeps the white space outside the slice. */
  lemma SpaceOutsideAfterHead(s: string, i: nat, j: nat)
    requires s != [] && IsJsSpace(s[0]) && i <= j <= |s| - 1
    requires SpaceOutside(s[1..], i, j)
    ensures SpaceOutside(s, i + 1, j + 1)
  {
    forall k | 0 <= k < i + 1 ensures IsJsSpace(s[k]) {
      if k > 0 { assert s[k] == s[1..][k - 1]; }
    }
    forall k | j + 1 <= k < |s| ensures IsJsSpace(s[k]) {
      assert s[k] == s[1..][k - 1];
    }
  }

  /** Dropping a trailing white-space character keeps the white space outside the slice. */
  lemma SpaceOutsideAfterLast(s: string, i: nat, j: nat)
    requires s != [] && IsJsSpace(s[|s| - 1]) && i <= j <= |s| - 1
    requires SpaceOutside(s[..|s| - 1], i, j)
    ensures SpaceOutside(s, i, j)
  {
    forall k | 0 <= k < i ensures IsJsSpace(s[k]) {
      assert s[k] == s[..|s| - 1][k];
    }
    forall k | j <= k < |s| ensures IsJsSpace(s[k]) {
      if k < |s| - 1 { assert s[k] == s[..|s| - 1][k]; }
    }
  }

  /** Trimming keeps a contiguous part of the text and cuts off only white space. */
  lemma {:induction false} TrimIsSlice(s: string)
    ensures exists i: nat, j: nat :: (i <= j <= |s| && Trim(s) == s[i..j] && SpaceOutside(s, i, j))
    decreases |s|
  {
    if s == [] {
      assert Trim(s) == s[0..0] && SpaceOutside(s, 0, 0);
    } else if IsJsSpace(s[0]) {
      TrimIsSlice(s[1..]);
      var i: nat, j: nat :| i <= j <= |s[1..]| && Trim(s[1..]) == s[1..][i..j] && SpaceOutside(s[1..], i, j);
      SpaceOutsideAfterHead(s, i, j);
      assert Trim(s) == s[i + 1..j + 1];
    } else if IsJsSpace(s[|s| - 1]) {
      TrimIsSlice(s[..|s| - 1]);
      var i: nat, j: nat :| i <= j <= |s[..|s| - 1]| && Trim(s[..|s| - 1]) == s[..|s| - 1][i..j]
                             && SpaceOutside(s[..|s| - 1], i, j);
      SpaceOutsideAfterLast(s, i, j);
      assert Trim(s) == s[i..j];
    } else {
      assert Trim(s) == s[0..|s|] && SpaceOutside(s, 0, |s|);
    }
  }

  /** `toLowerCase` on one character; characters outside A-Z are kept. */
  function LowerChar(c: char): char {
    if 'A' <= c <= 'Z' then (c as int + 32) as char else c
  }

  /** `toLowerCase`, ASCII letters only. */
  function Lower(s: string): (r: string)
    ensures |r| == |s|
  {
    if s == [] then [] else [LowerChar(s[0])] + Lower(s[1..])
  }

  /** Lowercasing works character by character. */
  lemma {:induction false} LowerAt(s: string)
    ensures forall i :: 0 <= i < |s| ==> Lower(s)[i] == LowerChar(s[i])
  {
    if s != [] {
      LowerAt(s[1..]);
      assert forall i :: 1 <= i < |s| ==> Lower(s)[i] == Lower(s[1..])[i - 1];
    }
  }

  /** Each piece of the header, trimmed and lowercased. */
  function Normalize(pieces: seq<string>): (r: seq<string>)
    ensures |r| == |pieces|
  {
    if pieces == [] then [] else [Lower(Trim(pieces[0]))] + Normalize(pieces[1..])
  }

  /** The `i`-th scheme is the `i`-th piece, trimmed and lowercased. */
  lemma {:induction false} NormalizeAt(pieces: seq<string>)
    ensures forall i :: 0 <= i < |pieces| ==> Normalize(pieces)[i] == Lower(Trim(pieces[i]))
  {
    if pieces != [] {
      NormalizeAt(pieces[1..]);
      assert forall i :: 1 <= i < |pieces| ==> Normalize(pieces)[i] == Normalize(pieces[1..])[i - 1];
    }
  }

  /** `getAuthMethods`: the schemes a response offers, or `None` when it has no `www-authenticate` header. */
  function AuthMethods(header: Option<string>): (r: Option<seq<string>>)
    ensures r.None? <==> header.None?
    ensures r.Some? ==> |r.value| >= 1
  {
    if header.None? then None else Some(Normalize(SplitOn(header.value, ',')))
  }

  /**
   * A header listing comma-free entries separated by commas offers exactly those entries,
   * trimmed and lowercased: "Negotiate, NTLM" offers "negotiate" and "ntlm".
   */
  lemma AuthMethodsOfList(entries: seq<string>)
    requires |entries| >= 1
    requires forall i :: 0 <= i < |entries| ==> ',' !in entries[i]
    ensures AuthMethods(Some(JoinWith(entries, ','))) == Some(Normalize(entries))
  {
    SplitJoin(entries, ',');
  }

  /** `authMethods?.indexOf(tag) !== -1`: true when the header is absent, since `undefined !== -1`. */
  predicate Advertised(methods: Option<seq<string>>, tag: string) {
    methods.None? || tag in methods.value
  }

  /** A response without `www-authenticate` advertises every scheme. */
  lemma MissingHeaderAdvertisesAll(tag: string)
    ensures Advertised(AuthMethods(None), tag)
  {
  }

  // ---------------------------------------------------------------------------
  // The decision
  // ---------------------------------------------------------------------------

  datatype Action = Ntlm1 | Basic | Ntlm2 | Resolve

  /** `result.status`: the response's status code, 0 when it has none (or it is 0). */
  function StatusOf(code: Option<int>): int {
    if code.Some? then code.value else 0
  }

  /** The NTLM step 1 guard: 401, credentials, ntlm advertised and not yet attempted. */
  predicate Ntlm1Applies(status: int, methods: Option<seq<string>>, o: Options) {
    status == 401 && HasCredentials(o) && Advertised(methods, NtlmTag) && !Attempted(o, NtlmTag)
  }

  /** The Basic guard: the same with basic. */
  predicate BasicApplies(status: int, methods: Option<seq<string>>, o: Options) {
    status == 401 && HasCredentials(o) && Advertised(methods, BasicTag) && !Attempted(o, BasicTag)
  }

  /** The NTLM step 2 guard: a 4xx status, credentials, an Authorization header and ntlm already attempted. */
  predicate Ntlm2Applies(status: int, o: Options) {
    399 < status < 500 && HasCredentials(o) && HasAuthorization(o) && Attempted(o, NtlmTag)
  }

  /** The guard chain of `get`: the first guard that holds picks the action. */
  function Decide(status: int, methods: Option<seq<string>>, o: Options): (a: Action)
    ensures a != Resolve ==> HasCredentials(o)
    ensures a == Ntlm1 || a == Basic ==> status == 401
    ensures a == Ntlm2 ==> 400 <= status <= 499 && HasAuthorization(o) && Attempted(o, NtlmTag)
    ensures a == Ntlm1 ==> !Attempted(o, NtlmTag)
    ensures a == Basic ==> !Attempted(o, BasicTag)
  {
    if Ntlm1Applies(status, methods, o) then Ntlm1
    else if BasicApplies(status, methods, o) then Basic
    else if Ntlm2Applies(status, o) then Ntlm2
    else Resolve
  }

  /**
   * The precedence of the chain: NTLM step 1 wins whenever its guard holds, Basic whenever
   * its guard holds and step 1's does not, step 2 only when neither does, and otherwise the
   * request resolves.
   */
  lemma DecidePrecedence(status: int, methods: Option<seq<string>>, o: Options)
    ensures Decide(status, methods, o) == Ntlm1 <==> Ntlm1Applies(status, methods, o)
    ensures Decide(status, methods, o) == Basic <==>
      BasicApplies(status, methods, o) && !Ntlm1Applies(status, methods, o)
    ensures Decide(status, methods, o) == Ntlm2 <==>
      Ntlm2Applies(status, o) && !Ntlm1Applies(status, methods, o) && !BasicApplies(status, methods, o)
    ensures Decide(status, methods, o) == Resolve <==>
      !Ntlm1Applies(status, methods, o) && !BasicApplies(status, methods, o) && !Ntlm2Applies(status, o)
  {
  }

  /** Defaulting the headers and `authMethod` does not change the decision. */
  lemma DecideIgnoresDefaults(status: int, methods: Option<seq<string>>, o: Options)
    ensures Decide(status, methods, SetHeaders(o)) == Decide(status, methods, o)
  {
    SetHeadersIdempotent(o);
  }

  /**
   * A 401 without `www-authenticate`, after NTLM step 1, falls back to Basic: the absent
   * header makes basic count as advertised.
   */
  lemma MissingHeaderAfterNtlm1IsBasic(o: Options)
    requires HasCredentials(o) && Attempted(o, NtlmTag) && !Attempted(o, BasicTag)
    ensures Decide(401, AuthMethods(None), o) == Basic
  {
  }

  // ---------------------------------------------------------------------------
  // The three retries
  // ---------------------------------------------------------------------------

  /** The per-round inputs the original draws from its environment. */
  datatype Env = Env(crypto: Crypto, b64: Base64, hostname: JsString, draws: seq<Nibble>, nowMs: nat)

  /** Sixteen random digits for the nonce, and a clock whose FILETIME fits 64 bits. */
  predicate ValidEnv(env: Env) {
    |env.draws| == 16 && FileTime(env.nowMs) < 0x1_0000_0000_0000_0000
  }

  /** `authMethod?.push(tag)`. */
  function Push(am: Option<seq<string>>, tag: string): Option<seq<string>> {
    if am.Some? then Some(am.value + [tag]) else None
  }

  /** The headers with Authorization set (after `headers || {}`). */
  function WithAuthorization(o: Options, value: string): (r: Options)
    ensures r.headers.Some? && AuthorizationHeader in r.headers.value
    ensures r.headers.value[AuthorizationHeader] == value
    ensures r.(headers := o.headers) == o
  {
    o.(headers := Some((if o.headers.Some? then o.headers.value else map[])[AuthorizationHeader := value]))
  }

  /** The agent after `agent?.destroy()`. */
  function DestroyAgent(o: Options): (r: Options)
    ensures r.agent.Some? <==> o.agent.Some?
    ensures r.agent.Some? ==> r.agent.value.destroyed && r.agent.value.keepAlive == o.agent.value.keepAlive
    ensures r.(agent := o.agent) == o
  {
    o.(agent := if o.agent.Some? then Some(o.agent.value.(destroyed := true)) else None)
  }

  /**
   * The options an action leaves for the next request, `header` being the Authorization
   * value it sends: step 1 records ntlm and keeps (or creates) a keep-alive agent; Basic
   * records basic and forgets the credentials; step 2 forgets the credentials; resolving
   * destroys the agent.
   */
  function Transition(a: Action, o: Options, header: string): Options {
    match a
    case Ntlm1 =>
      WithAuthorization(o, header).(authMethod := Push(o.authMethod, NtlmTag),
                                    agent := if o.agent.Some? then o.agent else Some(Agent(true, false)))
    case Basic => DeleteCredentials(WithAuthorization(o.(authMethod := Push(o.authMethod, BasicTag)), header))
    case Ntlm2 => DeleteCredentials(WithAuthorization(o, header))
    case Resolve => DestroyAgent(o)
  }

  /**
   * Credentials survive NTLM step 1 (and resolving) only: after Basic or step 2 user,
   * password, workstation and domain are gone.
   */
  lemma TransitionCredentials(a: Action, o: Options, header: string)
    ensures var r := Transition(a, o, header);
      && (a == Ntlm1 || a == Resolve ==>
            r.user == o.user && r.pwd == o.pwd && r.workstation == o.workstation && r.domain == o.domain)
      && (a == Basic || a == Ntlm2 ==>
            r.user.None? && r.pwd.None? && r.workstation.None? && r.domain.None?)
  {
  }

  /** `authMethod` only grows: step 1 appends ntlm, Basic appends basic, the others leave it alone. */
  lemma TransitionAuthMethod(a: Action, o: Options, header: string)
    ensures var r := Transition(a, o, header);
      && (a == Ntlm1 ==> r.authMethod == Push(o.authMethod, NtlmTag))
      && (a == Basic ==> r.authMethod == Push(o.authMethod, BasicTag))
      && (a == Ntlm2 || a == Resolve ==> r.authMethod == o.authMethod)
  {
  }

  /** Every retry sends its header as Authorization; resolving leaves the headers alone. */
  lemma TransitionAuthorization(a: Action, o: Options, header: string)
    ensures var r := Transition(a, o, header);
      && (a != Resolve ==> r.headers.Some? && AuthorizationHeader in r.headers.value
                           && r.headers.value[AuthorizationHeader] == header)
      && (a == Resolve ==> r.headers == o.headers)
  {
  }

  /** Only resolving destroys the agent; step 1 creates a keep-alive one if there is none. */
  lemma TransitionAgent(a: Action, o: Options, header: string)
    ensures var r := Transition(a, o, header);
      && (a == Resolve ==> (r.agent.Some? <==> o.agent.Some?))
      && (a == Resolve && r.agent.Some? ==> r.agent.value.destroyed)
      && (a != Resolve && o.agent.Some? ==> r.agent == o.agent)
      && (a == Ntlm1 && o.agent.None? ==> r.agent == Some(Agent(true, false)))
      && (a == Basic || a == Ntlm2 ==> r.agent == o.agent)
  {
  }

  /** `authMethod` holds `tag` at most once. */
  predicate AtMostOnce(o: Options, tag: string) {
    o.authMethod.None? || multiset(o.authMethod.value)[tag] <= 1
  }

  /** The guard before each push keeps every tag in `authMethod` at most once. */
  lemma DecidedTransitionKeepsTagsUnique(status: int, methods: Option<seq<string>>, o: Options,
                                         header: string, tag: string)
    requires AtMostOnce(o, tag)
    ensures AtMostOnce(Transition(Decide(status, methods, o), o, header), tag)
  {
    var a := Decide(status, methods, o);
    var r := Transition(a, o, header);
    if o.authMethod.Some? && (a == Ntlm1 || a == Basic) {
      var pushed := if a == Ntlm1 then NtlmTag else BasicTag;
      assert pushed !in o.authMethod.value;
      assert r.authMethod.value == o.authMethod.value + [pushed];
      assert multiset(r.authMethod.value) == multiset(o.authMethod.value) + multiset{pushed};
      if tag == pushed {
        assert multiset(o.authMethod.value)[tag] == 0;
      }
    }
  }

  /** The Type1 message of step 1 fits the original's 1024-byte buffer. */
  predicate Type1FitsFor(env: Env, o: Options) {
    32 + |Type1Target(o.domain)| + |Type1Workstation(env.hostname, o.workstation)| <= MessageCapacity
  }

  /** `executeNTLM1`: the Type1 message goes out as Authorization, the credentials stay. */
  function ExecuteNtlm1(env: Env, o: Options): (r: Options)
    requires Type1FitsFor(env, o)
    ensures HasAuthorization(r) && r == Transition(Ntlm1, o, r.headers.value[AuthorizationHeader])
    ensures |r.headers.value[AuthorizationHeader]| >= 5
    ensures r.headers.value[AuthorizationHeader][..5] == NtlmPrefix
    ensures r.headers.value[AuthorizationHeader][5..] ==
      env.b64.encode(Type1Bytes(Type1Workstation(env.hostname, o.workstation), Type1Target(o.domain)))
  {
    var header := CreateType1Message(env.b64, env.hostname, o.workstation, o.domain);
    TransitionAuthorization(Ntlm1, o, header);
    Transition(Ntlm1, o, header)
  }

  /** `executeBasic`: the Basic header goes out as Authorization (`user || ''`, `pwd || ''`). */
  function ExecuteBasic(b64: Base64, o: Options): (r: Options)
    ensures HasAuthorization(r) && r == Transition(Basic, o, r.headers.value[AuthorizationHeader])
    ensures |r.headers.value[AuthorizationHeader]| >= 6
    ensures r.headers.value[AuthorizationHeader][..6] == BasicPrefix
    ensures r.headers.value[AuthorizationHeader][6..] ==
      b64.encode(Utf8(OrEmpty(o.user)) + [Colon] + Utf8(OrEmpty(o.pwd)))
  {
    var header := CreateBasicMessage(b64, OrEmpty(o.user), OrEmpty(o.pwd));
    TransitionAuthorization(Basic, o, header);
    Transition(Basic, o, header)
  }

  /** Why step 2 throws: the challenge does not decode, or a v2 challenge lacks target information. */
  datatype AuthError = ChallengeError(type2: Type2Error) | ResponseError(type3: Type3Error)

  /** The Type2 input step 2 decodes: the `www-authenticate` value, or `undefined`. */
  function ChallengeInput(header: Option<string>): Type2Input {
    if header.Some? then Text(header.value) else Undefined
  }

  /** The Type3 message of step 2 fits the original's buffer, whatever challenge the header carries. */
  predicate Type3FitsFor(env: Env, o: Options, header: Option<string>) {
    var t2 := DecodeType2Message(env.b64, ChallengeInput(header));
    t2.Ok? ==>
      Type3Fits(t2.value, OrEmpty(o.user), Type3Workstation(env.hostname, o.workstation),
                Type3Target(t2.value, o.domain))
  }

  /** A decoded challenge has at most eight bytes. */
  lemma DecodedChallengeLength(b64: Base64, input: Type2Input)
    ensures DecodeType2Message(b64, input).Ok? ==> |DecodeType2Message(b64, input).value.challenge| <= 8
  {
  }

  /**
   * `executeNTLM2`: decodes the challenge and sends the Type3 message as Authorization; it
   * throws when the challenge does not decode or is v2 without target information.
   */
  function ExecuteNtlm2(env: Env, o: Options, header: Option<string>): (r: Result<Options, AuthError>)
    requires ValidEnv(env) && Type3FitsFor(env, o, header)
    ensures DecodeType2Message(env.b64, ChallengeInput(header)).Err? ==>
      r == Err(ChallengeError(DecodeType2Message(env.b64, ChallengeInput(header)).error))
    ensures DecodeType2Message(env.b64, ChallengeInput(header)).Ok? ==>
      (r.Err? <==> DecodeType2Message(env.b64, ChallengeInput(header)).value.version == 2
                   && !HasInfoBlock(DecodeType2Message(env.b64, ChallengeInput(header)).value))
    ensures r.Ok? ==> HasAuthorization(r.value)
    ensures r.Ok? ==> r.value == Transition(Ntlm2, o, r.value.headers.value[AuthorizationHeader])
    ensures r.Ok? ==> |r.value.headers.value[AuthorizationHeader]| >= 5
    ensures r.Ok? ==> r.value.headers.value[AuthorizationHeader][..5] == NtlmPrefix
    ensures r.Ok? ==>
      (r.value.headers.value[AuthorizationHeader] ==
         CreateType3Message(env.crypto, env.b64, env.hostname, DecodeType2Message(env.b64, ChallengeInput(header)).value,
                            OrEmpty(o.user), OrEmpty(o.pwd), o.workstation, o.domain, env.draws, env.nowMs).value)
  {
    DecodedChallengeLength(env.b64, ChallengeInput(header));
    var t2 := DecodeType2Message(env.b64, ChallengeInput(header));
    if t2.Err? then Err(ChallengeError(t2.error))
    else
      var m := CreateType3Message(env.crypto, env.b64, env.hostname, t2.value, OrEmpty(o.user), OrEmpty(o.pwd),
                                  o.workstation, o.domain, env.draws, env.nowMs);
      if m.Err? then Err(ResponseError(m.error))
      else
        TransitionAuthorization(Ntlm2, o, m.value);
        Ok(Transition(Ntlm2, o, m.value))
  }

  // ---------------------------------------------------------------------------
  // The step
  // ---------------------------------------------------------------------------

  /** What `get` does with one response. */
  datatype Outcome =
    /** Another request goes out with the updated options. */
    | Retry(action: Action, next: Options)
    /** `result.resolve` is set: the response is delivered when its stream ends. */
    | Resolved(status: int, next: Options)
    /** The response callback throws. */
    | Failed(error: AuthError)

  /** The message a retry would send fits its buffer. */
  predicate StepFits(env: Env, o: Options, resp: Response) {
    var a := Decide(StatusOf(resp.statusCode), AuthMethods(resp.wwwAuthenticate), SetHeaders(o));
    (a == Ntlm1 ==> Type1FitsFor(env, o)) && (a == Ntlm2 ==> Type3FitsFor(env, o, resp.wwwAuthenticate))
  }

  /** One response: `setHeaders`, `getAuthMethods`, then the action the guard chain picks. */
  function Step(env: Env, o: Options, resp: Response): (r: Outcome)
    requires ValidEnv(env) && StepFits(env, o, resp)
    ensures r.Retry? ==> r.action != Resolve && HasCredentials(o) && HasAuthorization(r.next)
    ensures r.Resolved? <==> Decide(StatusOf(resp.statusCode), AuthMethods(resp.wwwAuthenticate), SetHeaders(o)) == Resolve
    ensures r.Resolved? ==> r.status == StatusOf(resp.statusCode)
  {
    var o := SetHeaders(o);
    var status := StatusOf(resp.statusCode);
    match Decide(status, AuthMethods(resp.wwwAuthenticate), o)
    case Ntlm1 => Retry(Ntlm1, ExecuteNtlm1(env, o))
    case Basic => Retry(Basic, ExecuteBasic(env.b64, o))
    case Ntlm2 =>
      var n := ExecuteNtlm2(env, o, resp.wwwAuthenticate);
      if n.Ok? then Retry(Ntlm2, n.value) else Failed(n.error)
    case Resolve => Resolved(status, Transition(Resolve, o, []))
  }

  /**
   * A retry takes the action the guard chain picks on the defaulted options; only step 2
   * can throw.
   */
  lemma StepFollowsDecide(env: Env, o: Options, resp: Response)
    requires ValidEnv(env) && StepFits(env, o, resp)
    ensures Step(env, o, resp).Retry? ==>
      Step(env, o, resp).action == Decide(StatusOf(resp.statusCode), AuthMethods(resp.wwwAuthenticate), SetHeaders(o))
    ensures Step(env, o, resp).Failed? ==>
      Decide(StatusOf(resp.statusCode), AuthMethods(resp.wwwAuthenticate), SetHeaders(o)) == Ntlm2
  {
  }

  /** The options a step leaves are the transition of its action, with the header it sends. */
  lemma StepTransition(env: Env, o: Options, resp: Response)
    requires ValidEnv(env) && StepFits(env, o, resp)
    ensures Step(env, o, resp).Retry? ==>
      Step(env, o, resp).next ==
        Transition(Step(env, o, resp).action, SetHeaders(o),
                   Step(env, o, resp).next.headers.value[AuthorizationHeader])
  {
    var a := Decide(StatusOf(resp.statusCode), AuthMethods(resp.wwwAuthenticate), SetHeaders(o));
    if a == Ntlm1 {
    } else if a == Basic {
    } else if a == Ntlm2 {
      var n := ExecuteNtlm2(env, SetHeaders(o), resp.wwwAuthenticate);
    }
  }

  /** A resolving step destroys the agent and changes nothing else. */
  lemma StepResolves(env: Env, o: Options, resp: Response)
    requires ValidEnv(env) && StepFits(env, o, resp)
    ensures Step(env, o, resp).Resolved? ==> Step(env, o, resp).next == Transition(Resolve, SetHeaders(o), [])
  {
  }

  /** After the credentials are gone every response resolves. */
  lemma NoCredentialsResolves(env: Env, o: Options, resp: Response)
    requires ValidEnv(env) && !HasCredentials(o)
    ensures StepFits(env, o, resp)
    ensures Step(env, o, resp).Resolved?
  {
    SetHeadersIdempotent(o);
  }

  // ---------------------------------------------------------------------------
  // The retry bound
  // ---------------------------------------------------------------------------

  /**
   * How many more requests the client may still send: none without credentials, one once
   * NTLM step 1 has been attempted (Basic or step 2, both of which drop the credentials),
   * two before that.
   */
  function Budget(o: Options): (n: nat)
    ensures n <= 2
  {
    if !HasCredentials(o) then 0 else if Attempted(o, NtlmTag) then 1 else 2
  }

  /** Every action but resolving spends budget (once `authMethod` is defaulted, so pushes take effect). */
  lemma TransitionSpendsBudget(status: int, methods: Option<seq<string>>, o: Options, header: string)
    requires o.authMethod.Some? && Decide(status, methods, o) != Resolve
    ensures Budget(Transition(Decide(status, methods, o), o, header)) < Budget(o)
  {
    var a := Decide(status, methods, o);
    TransitionCredentials(a, o, header);
    TransitionAuthMethod(a, o, header);
  }

  /** Every retry spends budget. */
  lemma StepSpendsBudget(env: Env, o: Options, resp: Response)
    requires ValidEnv(env) && StepFits(env, o, resp)
    ensures Step(env, o, resp).Retry? ==> Budget(Step(env, o, resp).next) < Budget(o)
  {
    var r := Step(env, o, resp);
    if r.Retry? {
      var status, methods := StatusOf(resp.statusCode), AuthMethods(resp.wwwAuthenticate);
      StepFollowsDecide(env, o, resp);
      StepTransition(env, o, resp);
      DecideIgnoresDefaults(status, methods, o);
      SetHeadersIdempotent(o);
      TransitionSpendsBudget(status, methods, SetHeaders(o), r.next.headers.value[AuthorizationHeader]);
    }
  }

  /** `os[i + 1]` is the options of the retry the step sends on the `i`-th response. */
  predicate RetryChain(envs: seq<Env>, os: seq<Options>, rs: seq<Response>) {
    && |envs| == |rs| && |os| == |rs| + 1
    && forall i :: 0 <= i < |rs| ==>
         && ValidEnv(envs[i]) && StepFits(envs[i], os[i], rs[i])
         && Step(envs[i], os[i], rs[i]).Retry? && Step(envs[i], os[i], rs[i]).next == os[i + 1]
  }

  /** A chain of retries is no longer than the budget it starts with. */
  lemma {:induction false} RetryChainWithinBudget(envs: seq<Env>, os: seq<Options>, rs: seq<Response>)
    requires RetryChain(envs, os, rs)
    ensures |rs| <= Budget(os[0])
    decreases |rs|
  {
    if rs != [] {
      StepSpendsBudget(envs[0], os[0], rs[0]);
      assert RetryChain(envs[1..], os[1..], rs[1..]) by {
        forall i | 0 <= i < |rs[1..]|
          ensures && ValidEnv(envs[1..][i]) && StepFits(envs[1..][i], os[1..][i], rs[1..][i])
                  && Step(envs[1..][i], os[1..][i], rs[1..][i]).Retry?
                  && Step(envs[1..][i], os[1..][i], rs[1..][i]).next == os[1..][i + 1]
        {
          assert envs[1..][i] == envs[i + 1] && os[1..][i] == os[i + 1] && rs[1..][i] == rs[i + 1];
          assert os[1..][i + 1] == os[i + 2];
        }
      }
      RetryChainWithinBudget(envs[1..], os[1..], rs[1..]);
    }
  }

  /**
   * Whatever the server answers, a request is retried at most twice: after at most two
   * rounds the next response resolves or throws.
   */
  lemma AtMostTwoRetries(envs: seq<Env>, os: seq<Options>, rs: seq<Response>)
    requires RetryChain(envs, os, rs)
    ensures |rs| <= 2
  {
    RetryChainWithinBudget(envs, os, rs);
  }
}
