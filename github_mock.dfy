/** The mock GitHub server used by the GitHub extension's tests: canonical
    request keys, the mock requests and their canned responses, the table of
    expected requests, and the `git push` short-circuit. */
module GitHubMock {
  import opened Wrappers

  // ---------------------------------------------------------------------
  // Decimal rendering of integers (Python's `f"{n}"`)
  // ---------------------------------------------------------------------

  function DigitChar(d: nat): char
    requires d < 10
  {
    (48 + d) as char
  }

  predicate IsDigit(c: char) { '0' <= c <= '9' }

  function NatToString(n: nat): (s: string)
    ensures |s| >= 1 && forall i :: 0 <= i < |s| ==> IsDigit(s[i])
  {
    if n < 10 then [DigitChar(n)] else NatToString(n / 10) + [DigitChar(n % 10)]
  }

  function IntToString(i: int): string {
    if i < 0 then "-" + NatToString(-i) else NatToString(i)
  }

  function ParseNat(s: string): nat
    requires forall i :: 0 <= i < |s| ==> IsDigit(s[i])
  {
    if s == [] then 0
    else
      assert IsDigit(s[|s| - 1]);
      10 * ParseNat(s[..|s| - 1]) + (s[|s| - 1] as int - 48)
  }

  function ParseInt(s: string): int
    requires |s| >= 1 && (if s[0] == '-' then forall i :: 1 <= i < |s| ==> IsDigit(s[i]) else forall i :: 0 <= i < |s| ==> IsDigit(s[i]))
  {
    if s[0] == '-' then -(ParseNat(s[1..]) as int) else ParseNat(s)
  }

  lemma {:induction false} ParseNatToString(n: nat)
    ensures ParseNat(NatToString(n)) == n
  {
    if n >= 10 {
      ParseNatToString(n / 10);
      var s := NatToString(n);
      assert s[..|s| - 1] == NatToString(n / 10);
    }
  }

  /** Decimal rendering round-trips, so distinct numbers render distinctly. */
  lemma ParseIntToString(i: int)
    ensures ParseInt(IntToString(i)) == i
  {
    if i < 0 {
      ParseNatToString(-i);
      assert IntToString(i)[1..] == NatToString(-i);
    } else {
      ParseNatToString(i);
    }
  }

  // ---------------------------------------------------------------------
  // create_request_key
  // ---------------------------------------------------------------------

  /** A parameter value: `bool`, `int` or `str`. */
  datatype ParamValue = PBool(b: bool) | PInt(i: int) | PStr(s: string)

  /** A parameter dict, as its items in insertion order. */
  type Params = seq<(string, ParamValue)>

  predicate DistinctKeys(params: Params) {
    forall i, j :: 0 <= i < j < |params| ==> params[i].0 != params[j].0
  }

  /** Python's `f"{v}"` for a parameter value. */
  function ParamText(v: ParamValue): string {
    match v
    case PBool(b) => if b then "True" else "False"
    case PInt(i) => IntToString(i)
    case PStr(s) => s
  }

  /** Python's string order: lexicographic by code point. */
  predicate StrLess(a: string, b: string)
    decreases |a|
  {
    if a == [] then b != []
    else if b == [] then false
    else a[0] < b[0] || (a[0] == b[0] && StrLess(a[1..], b[1..]))
  }

  lemma {:induction false} StrLessIrreflexive(a: string)
    ensures !StrLess(a, a)
    decreases |a|
  {
    if a != [] {
      StrLessIrreflexive(a[1..]);
    }
  }

  lemma {:induction false} StrLessTransitive(a: string, b: string, c: string)
    requires StrLess(a, b) && StrLess(b, c)
    ensures StrLess(a, c)
    decreases |a|
  {
    if a != [] && a[0] == b[0] && b[0] == c[0] {
      StrLessTransitive(a[1..], b[1..], c[1..]);
    }
  }

  lemma {:induction false} StrLessTotal(a: string, b: string)
    requires a != b
    ensures StrLess(a, b) || StrLess(b, a)
    decreases |a|
  {
    if a != [] && b != [] && a[0] == b[0] {
      assert a == [a[0]] + a[1..] && b == [b[0]] + b[1..];
      StrLessTotal(a[1..], b[1..]);
    }
  }

  lemma StrLessAsymmetric(a: string, b: string)
    requires StrLess(a, b)
    ensures !StrLess(b, a)
  {
    if StrLess(b, a) {
      StrLessTransitive(a, b, a);
      StrLessIrreflexive(a);
    }
  }

  /** Items in strictly ascending key order. */
  predicate SortedByKey(params: Params) {
    forall i, j :: 0 <= i < j < |params| ==> StrLess(params[i].0, params[j].0)
  }

  function Insert(item: (string, ParamValue), sorted: Params): Params {
    if sorted == [] then [item]
    else if StrLess(item.0, sorted[0].0) then [item] + sorted
    else [sorted[0]] + Insert(item, sorted[1..])
  }

  /** `sorted(params.items())`: insertion sort by key. */
  function SortByKey(params: Params): Params {
    if params == [] then [] else Insert(params[0], SortByKey(params[1..]))
  }

  predicate NotAKey(key: string, params: Params) {
    forall i :: 0 <= i < |params| ==> params[i].0 != key
  }

  /** A key smaller than every key of a sorted list may go in front. */
  lemma ConsSorted(head: (string, ParamValue), tail: Params)
    requires SortedByKey(tail)
    requires forall k :: k in tail ==> StrLess(head.0, k.0)
    ensures SortedByKey([head] + tail)
  {
    var r := [head] + tail;
    forall i, j | 0 <= i < j < |r| ensures StrLess(r[i].0, r[j].0) {
      if i == 0 {
        assert r[j] == tail[j - 1];
      } else {
        assert r[i] == tail[i - 1] && r[j] == tail[j - 1];
      }
    }
  }

  lemma {:induction false} InsertSorted(item: (string, ParamValue), sorted: Params)
    requires SortedByKey(sorted) && NotAKey(item.0, sorted)
    ensures SortedByKey(Insert(item, sorted))
    ensures multiset(Insert(item, sorted)) == multiset(sorted) + multiset{item}
    ensures |Insert(item, sorted)| == |sorted| + 1
    ensures forall k :: k in Insert(item, sorted) ==> k == item || k in sorted
  {
    if sorted == [] {
    } else if StrLess(item.0, sorted[0].0) {
      forall k | k in sorted ensures StrLess(item.0, k.0) {
        var j :| 0 <= j < |sorted| && sorted[j] == k;
        if j > 0 {
          StrLessTransitive(item.0, sorted[0].0, k.0);
        }
      }
      ConsSorted(item, sorted);
    } else {
      StrLessTotal(item.0, sorted[0].0);
      var rest := sorted[1..];
      assert SortedByKey(rest) && NotAKey(item.0, rest) by {
        forall i, j | 0 <= i < j < |rest| ensures StrLess(rest[i].0, rest[j].0) {
          assert rest[i] == sorted[i + 1] && rest[j] == sorted[j + 1];
        }
      }
      InsertSorted(item, rest);
      var tail := Insert(item, rest);
      forall k | k in tail ensures StrLess(sorted[0].0, k.0) {
        if k != item {
          var j :| 0 <= j < |rest| && rest[j] == k;
          assert sorted[j + 1] == k;
        }
      }
      ConsSorted(sorted[0], tail);
      assert sorted == [sorted[0]] + rest;
    }
  }

  lemma {:induction false} SortByKeySorted(params: Params)
    requires DistinctKeys(params)
    ensures SortedByKey(SortByKey(params))
    ensures multiset(SortByKey(params)) == multiset(params)
  {
    if params != [] {
      var rest := params[1..];
      SortByKeySorted(rest);
      var s := SortByKey(rest);
      forall i | 0 <= i < |s| ensures s[i].0 != params[0].0 {
        assert s[i] in multiset(rest);
      }
      InsertSorted(params[0], s);
      assert params == [params[0]] + rest;
    }
  }

  /** Two key-sorted lists with the same items are the same list. */
  lemma {:induction false} SortedUnique(a: Params, b: Params)
    requires SortedByKey(a) && SortedByKey(b) && multiset(a) == multiset(b)
    ensures a == b
  {
    if a != [] {
      assert b != [] by {
        assert a[0] in multiset(b);
      }
      if a[0] != b[0] {
        assert a[0] in multiset(b);
        assert b[0] in multiset(a);
        var i :| 0 <= i < |b| && b[i] == a[0];
        var j :| 0 <= j < |a| && a[j] == b[0];
        assert StrLess(b[0].0, b[i].0);
        StrLessAsymmetric(a[0].0, a[j].0);
        assert false;
      }
      assert a == [a[0]] + a[1..] && b == [b[0]] + b[1..];
      assert multiset(a) == multiset{a[0]} + multiset(a[1..]);
      assert multiset(b) == multiset{b[0]} + multiset(b[1..]);
      assert multiset(a[1..]) == multiset(a) - multiset{a[0]};
      assert multiset(b[1..]) == multiset(b) - multiset{b[0]};
      SortedUnique(a[1..], b[1..]);
    }
  }

  function Join(parts: seq<string>, sep: string): string {
    if parts == [] then "" else if |parts| == 1 then parts[0] else parts[0] + sep + Join(parts[1..], sep)
  }

  function RenderItems(items: Params): seq<string> {
    if items == [] then [] else [items[0].0 + "=" + ParamText(items[0].1)] + RenderItems(items[1..])
  }

  /** Python's `f"{method}"`: `None` renders as `None`. */
  function MethodText(httpMethod: Option<string>): string {
    if httpMethod.Some? then httpMethod.value else "None"
  }

  /** `create_request_key`. */
  function CreateRequestKey(params: Params, hostname: string, endpoint: string, httpMethod: Option<string>): string {
    hostname + "|" + endpoint + "|" + MethodText(httpMethod) + "|" + Join(RenderItems(SortByKey(params)), ",")
  }

  /** The key is `hostname|endpoint|method|` followed by the parameters'
      `key=value` renderings, joined by commas, in ascending key order. */
  lemma RequestKeyShape(params: Params, hostname: string, endpoint: string, httpMethod: Option<string>)
    returns (sorted: Params)
    requires DistinctKeys(params)
    ensures SortedByKey(sorted) && multiset(sorted) == multiset(params)
    ensures CreateRequestKey(params, hostname, endpoint, httpMethod)
      == hostname + "|" + endpoint + "|" + MethodText(httpMethod) + "|" + Join(RenderItems(sorted), ",")
  {
    SortByKeySorted(params);
    sorted := SortByKey(params);
  }

  /** The key does not depend on the order the parameters were inserted in. */
  lemma RequestKeyOrderIndependent(p1: Params, p2: Params, hostname: string, endpoint: string, httpMethod: Option<string>)
    requires DistinctKeys(p1) && DistinctKeys(p2) && multiset(p1) == multiset(p2)
    ensures CreateRequestKey(p1, hostname, endpoint, httpMethod) == CreateRequestKey(p2, hostname, endpoint, httpMethod)
  {
    SortByKeySorted(p1);
    SortByKeySorted(p2);
    SortedUnique(SortByKey(p1), SortByKey(p2));
  }

  // ---------------------------------------------------------------------
  // mock_run_git_command
  // ---------------------------------------------------------------------

  /** `mock_run_git_command`: a `push` answers with no output; any other
      command, and no arguments at all, goes to the real runner. */
  function MockRunGitCommand(origin: (seq<string>, string) -> seq<bv8>, args: seq<string>, gitdir: string): (out: seq<bv8>)
    ensures args != [] && args[0] == "push" ==> out == []
    ensures !(args != [] && args[0] == "push") ==> out == origin(args, gitdir)
  {
    if args != [] && args[0] == "push" then [] else origin(args, gitdir)
  }

  // ---------------------------------------------------------------------
  // Responses
  // ---------------------------------------------------------------------

  /** The JSON payload of a response. */
  datatype Json = JNull | JBool(b: bool) | JInt(i: int) | JStr(s: string) | JObject(fields: seq<(string, Json)>)

  datatype MockError =
    | MockRequestNotFound(key: string)
    | MockResponseNotSet(key: string)
    | MockResponseRunout(key: string)

  /** The branch name a PR number stands for: `pr{n}`. */
  function PrBranchName(n: int): string { "pr" + IntToString(n) }

  /** Distinct PR numbers give distinct default branch names. */
  lemma PrBranchNameInjective(m: int, n: int)
    requires PrBranchName(m) == PrBranchName(n)
    ensures m == n
  {
    assert PrBranchName(m)[2..] == IntToString(m);
    assert PrBranchName(n)[2..] == IntToString(n);
    ParseIntToString(m);
    ParseIntToString(n);
  }

  /** `head or f"pr{issue}"`: an empty head defaults to the issue's branch. */
  function DefaultHead(head: string, issue: int): (h: string)
    ensures head != "" ==> h == head
    ensures head == "" ==> h == PrBranchName(issue) && h[..2] == "pr" && ParseInt(h[2..]) == issue
  {
    if head != "" then head
    else
      ParseIntToString(issue);
      assert PrBranchName(issue)[2..] == IntToString(issue);
      PrBranchName(issue)
  }

  function PullUrl(owner: string, name: string, number: int): string {
    "https://github.com/" + owner + "/" + name + "/pull/" + IntToString(number)
  }

  function NumberPayload(number: int): Json { JObject([("number", JInt(number))]) }

  function RepositoryPayload(repoId: string, ownerId: string, owner: string, name: string, isFork: bool, defaultBranchRef: string, parent: Json): Json {
    JObject([("data", JObject([("repository", JObject([
      ("id", JStr(repoId)),
      ("owner", JObject([("id", JStr(ownerId)), ("login", JStr(owner))])),
      ("name", JStr(name)),
      ("isFork", JBool(isFork)),
      ("defaultBranchRef", JObject([("name", JStr(defaultBranchRef))])),
      ("parent", parent)]))]))])
  }

  function CreatePrPayload(owner: string, name: string, number: int): Json {
    JObject([("number", JInt(number)), ("html_url", JStr(PullUrl(owner, name, number)))])
  }

  function PrDetailsPayload(prId: string, owner: string, name: string, prNumber: int, headRefOid: string, headRefName: string): Json {
    JObject([("data", JObject([("repository", JObject([("pullRequest", JObject([
      ("id", JStr(prId)),
      ("url", JStr(PullUrl(owner, name, prNumber))),
      ("headRefOid", JStr(headRefOid)),
      ("headRefName", JStr(headRefName))]))]))]))])
  }

  /** The answer of a request that stores one response. */
  function Stored(key: string, response: Option<Json>): Result<Json, MockError> {
    if response.None? then Err(MockResponseNotSet(key)) else Ok(response.value)
  }

  // ---------------------------------------------------------------------
  // The mock requests
  // ---------------------------------------------------------------------

  class GetRepositoryRequest {
    const key: string
    const owner: string
    const name: string
    var response: Option<Json>

    constructor (key: string, owner: string, name: string)
      ensures this.key == key && this.owner == owner && this.name == name && response == None
    {
      this.key, this.owner, this.name := key, owner, name;
      response := None;
    }

    method AndRespond(repoId: string, ownerId: string, isFork: bool, defaultBranchRef: string, parent: Json)
      modifies this
      ensures response == Some(RepositoryPayload(repoId, ownerId, owner, name, isFork, defaultBranchRef, parent))
    {
      response := Some(RepositoryPayload(repoId, ownerId, owner, name, isFork, defaultBranchRef, parent));
    }

    /** Not set until `and_respond`; afterwards the same payload each time. */
    method GetResponse() returns (r: Result<Json, MockError>)
      ensures response.None? ==> r == Err(MockResponseNotSet(key))
      ensures response.Some? ==> r == Ok(response.value)
    {
      if response.None? {
        return Err(MockResponseNotSet(key));
      }
      return Ok(response.value);
    }
  }

  /** The answers of `k` calls to `get_response` starting from the counter
      `current` with `times` responses left. */
  function Responses(key: string, current: int, times: int, k: nat): seq<Result<Json, MockError>>
    decreases k
  {
    if k == 0 then []
    else if times > 0 then [Ok(NumberPayload(current))] + Responses(key, current + 1, times - 1, k - 1)
    else [Err(MockResponseRunout(key))] + Responses(key, current, times, k - 1)
  }

  /** After `and_respond(start, n)`, exactly `n` calls succeed, numbered
      `start` to `start + n - 1`, and every later call runs out. */
  lemma {:induction false} RespondsExactly(key: string, start: int, n: nat, extra: nat)
    ensures Responses(key, start, n, n + extra)
      == seq(n, i => Ok(NumberPayload(start + i))) + seq(extra, i => Err(MockResponseRunout(key)))
    decreases n + extra
  {
    if n > 0 {
      RespondsExactly(key, start + 1, n - 1, extra);
      var ok: seq<Result<Json, MockError>> := seq(n, i => Ok(NumberPayload(start + i)));
      assert [Ok(NumberPayload(start))] + seq(n - 1, i => Ok(NumberPayload(start + 1 + i))) == ok;
    } else if extra > 0 {
      RespondsExactly(key, start, 0, extra - 1);
      var out: seq<Result<Json, MockError>> := seq(extra, i => Err(MockResponseRunout(key)));
      assert [Err(MockResponseRunout(key))] + seq(extra - 1, i => Err(MockResponseRunout(key))) == out;
    }
  }

  class CreatePrPlaceholderRequest {
    const key: string
    var currentNumber: int
    var numTimes: int

    /** A fresh placeholder request answers once, with number 1. */
    constructor (key: string)
      ensures this.key == key && currentNumber == 1 && numTimes == 1
    {
      this.key := key;
      currentNumber, numTimes := 1, 1;
    }

    method AndRespond(startNumber: int, times: int)
      modifies this
      ensures currentNumber == startNumber && numTimes == times
    {
      currentNumber, numTimes := startNumber, times;
    }

    method GetResponse() returns (r: Result<Json, MockError>)
      modifies this
      ensures old(numTimes) > 0 ==>
        r == Ok(NumberPayload(old(currentNumber))) && currentNumber == old(currentNumber) + 1 && numTimes == old(numTimes) - 1
      ensures old(numTimes) <= 0 ==>
        r == Err(MockResponseRunout(key)) && unchanged(this)
      ensures r == Responses(key, old(currentNumber), old(numTimes), 1)[0]
    {
      if numTimes > 0 {
        var number := currentNumber;
        currentNumber := currentNumber + 1;
        numTimes := numTimes - 1;
        return Ok(NumberPayload(number));
      } else {
        return Err(MockResponseRunout(key));
      }
    }

    /** `k` calls in a row answer as `Responses` says. */
    method GetResponses(k: nat) returns (rs: seq<Result<Json, MockError>>)
      modifies this
      ensures rs == Responses(key, old(currentNumber), old(numTimes), k)
    {
      rs := [];
      for i := 0 to k
        invariant rs + Responses(key, currentNumber, numTimes, k - i) == Responses(key, old(currentNumber), old(numTimes), k)
      {
        ghost var before := Responses(key, currentNumber, numTimes, k - i);
        var r := GetResponse();
        assert before == [r] + Responses(key, currentNumber, numTimes, k - i - 1);
        rs := rs + [r];
      }
    }
  }

  class CreatePrRequest {
    const key: string
    const owner: string
    const name: string
    const number: int
    var response: Option<Json>

    constructor (key: string, owner: string, name: string, number: int)
      ensures this.key == key && this.owner == owner && this.name == name && this.number == number
      ensures response == None
    {
      this.key, this.owner, this.name, this.number := key, owner, name, number;
      response := None;
    }

    method AndRespond()
      modifies this
      ensures response == Some(CreatePrPayload(owner, name, number))
    {
      response := Some(CreatePrPayload(owner, name, number));
    }

    method GetResponse() returns (r: Result<Json, MockError>)
      ensures response.None? ==> r == Err(MockResponseNotSet(key))
      ensures response.Some? ==> r == Ok(response.value)
    {
      if response.None? {
        return Err(MockResponseNotSet(key));
      }
      return Ok(response.value);
    }
  }

  class GetPrDetailsRequest {
    const key: string
    const owner: string
    const name: string
    const prNumber: int
    var response: Option<Json>

    constructor (key: string, owner: string, name: string, prNumber: int)
      ensures this.key == key && this.owner == owner && this.name == name && this.prNumber == prNumber
      ensures response == None
    {
      this.key, this.owner, this.name, this.prNumber := key, owner, name, prNumber;
      response := None;
    }

    /** An empty head name defaults to `pr{pr_number}`, an empty head id to
        the SHA-1 hex digest of the PR id (passed in as `sha1Hex`). */
    method AndRespond(prId: string, headRefName: string, headRefOid: string, sha1Hex: string -> string)
      modifies this
      ensures response == Some(PrDetailsPayload(prId, owner, name, prNumber,
        if headRefOid == "" then sha1Hex(prId) else headRefOid,
        if headRefName == "" then PrBranchName(prNumber) else headRefName))
    {
      var refName := if headRefName == "" then PrBranchName(prNumber) else headRefName;
      var refOid := if headRefOid == "" then sha1Hex(prId) else headRefOid;
      response := Some(PrDetailsPayload(prId, owner, name, prNumber, refOid, refName));
    }

    method GetResponse() returns (r: Result<Json, MockError>)
      ensures response.None? ==> r == Err(MockResponseNotSet(key))
      ensures response.Some? ==> r == Ok(response.value)
    {
      if response.None? {
        return Err(MockResponseNotSet(key));
      }
      return Ok(response.value);
    }
  }

  // ---------------------------------------------------------------------
  // MockGitHubServer
  // ---------------------------------------------------------------------

  /** A registered mock request, of one of the four kinds. */
  datatype Registered =
    | Repository(repository: GetRepositoryRequest)
    | Placeholder(placeholder: CreatePrPlaceholderRequest)
    | CreatePr(createPr: CreatePrRequest)
    | PrDetails(prDetails: GetPrDetailsRequest)

  function ObjectOf(req: Registered): object {
    match req
    case Repository(q) => q
    case Placeholder(q) => q
    case CreatePr(q) => q
    case PrDetails(q) => q
  }

  /** What the next `get_response` of a registered request answers. */
  function NextResponse(req: Registered): Result<Json, MockError>
    reads ObjectOf(req)
  {
    match req
    case Repository(q) => Stored(q.key, q.response)
    case Placeholder(q) => Responses(q.key, q.currentNumber, q.numTimes, 1)[0]
    case CreatePr(q) => Stored(q.key, q.response)
    case PrDetails(q) => Stored(q.key, q.response)
  }

  class MockGitHubServer {
    const hostname: string
    /** The expected requests, by request key. */
    var requests: map<string, Registered>

    constructor (hostname: string)
      ensures this.hostname == hostname && requests == map[]
    {
      this.hostname := hostname;
      requests := map[];
    }

    ghost function Objects(): set<object>
      reads this
    {
      set k | k in requests :: ObjectOf(requests[k])
    }

    /** `_add_request`: registering a key again replaces the old request. */
    method AddRequest(key: string, request: Registered)
      modifies this
      ensures requests == old(requests)[key := request]
    {
      requests := requests[key := request];
    }

    method ExpectGetRepositoryRequest(query: string, owner: string, name: string) returns (request: GetRepositoryRequest)
      modifies this
      ensures fresh(request) && request.owner == owner && request.name == name && request.response == None
      ensures request.key == CreateRequestKey([("query", PStr(query)), ("owner", PStr(owner)), ("name", PStr(name))], hostname, "graphql", None)
      ensures requests == old(requests)[request.key := Repository(request)]
    {
      var key := CreateRequestKey([("query", PStr(query)), ("owner", PStr(owner)), ("name", PStr(name))], hostname, "graphql", None);
      request := new GetRepositoryRequest(key, owner, name);
      AddRequest(key, Repository(request));
    }

    method ExpectCreatePrPlaceholderRequest(owner: string, name: string) returns (request: CreatePrPlaceholderRequest)
      modifies this
      ensures fresh(request) && request.currentNumber == 1 && request.numTimes == 1
      ensures request.key == CreateRequestKey([("title", PStr("placeholder for pull request"))], hostname, "repos/" + owner + "/" + name + "/issues", None)
      ensures requests == old(requests)[request.key := Placeholder(request)]
    {
      var endpoint := "repos/" + owner + "/" + name + "/issues";
      var key := CreateRequestKey([("title", PStr("placeholder for pull request"))], hostname, endpoint, None);
      request := new CreatePrPlaceholderRequest(key);
      AddRequest(key, Placeholder(request));
    }

    /** The PR's head branch defaults to `pr{issue}`. */
    method ExpectCreatePrRequest(body: string, issue: int, head: string, isDraft: bool, base: string, owner: string, name: string)
      returns (request: CreatePrRequest)
      modifies this
      ensures fresh(request) && request.owner == owner && request.name == name && request.number == issue && request.response == None
      ensures request.key == CreateRequestKey(
        [("base", PStr(base)), ("head", PStr(DefaultHead(head, issue))), ("body", PStr(body)), ("issue", PInt(issue)), ("draft", PBool(isDraft))],
        hostname, "repos/" + owner + "/" + name + "/pulls", None)
      ensures requests == old(requests)[request.key := CreatePr(request)]
    {
      var params := [("base", PStr(base)), ("head", PStr(DefaultHead(head, issue))), ("body", PStr(body)), ("issue", PInt(issue)), ("draft", PBool(isDraft))];
      var endpoint := "repos/" + owner + "/" + name + "/pulls";
      var key := CreateRequestKey(params, hostname, endpoint, None);
      request := new CreatePrRequest(key, owner, name, issue);
      AddRequest(key, CreatePr(request));
    }

    method ExpectGetPrDetailsRequest(query: string, prNumber: int, owner: string, name: string) returns (request: GetPrDetailsRequest)
      modifies this
      ensures fresh(request) && request.owner == owner && request.name == name && request.prNumber == prNumber && request.response == None
      ensures request.key == CreateRequestKey(
        [("query", PStr(query)), ("owner", PStr(owner)), ("name", PStr(name)), ("number", PInt(prNumber))], hostname, "graphql", None)
      ensures requests == old(requests)[request.key := PrDetails(request)]
    {
      var params := [("query", PStr(query)), ("owner", PStr(owner)), ("name", PStr(name)), ("number", PInt(prNumber))];
      var key := CreateRequestKey(params, hostname, "graphql", None);
      request := new GetPrDetailsRequest(key, owner, name, prNumber);
      AddRequest(key, PrDetails(request));
    }

    /** `make_request`: answers with the request registered under the key
        of the call's arguments, or reports the key as not found. Only the
        answering request may change, and only a placeholder does: it
        advances its number while it has responses left. */
    method MakeRequest(params: Params, hostname: string, endpoint: string, httpMethod: Option<string>)
      returns (r: Result<Json, MockError>)
      modifies Objects()
      ensures requests == old(requests)
      ensures var key := CreateRequestKey(params, hostname, endpoint, httpMethod);
        && (key !in requests ==> r == Err(MockRequestNotFound(key)) && unchanged(Objects()))
        && (key in requests ==> r == old(NextResponse(requests[key])))
        && (key in requests ==> unchanged(Objects() - {ObjectOf(requests[key])}))
        && (key in requests && !requests[key].Placeholder? ==> unchanged(ObjectOf(requests[key])))
        && (key in requests && requests[key].Placeholder? ==>
            var q := requests[key].placeholder;
            && (old(q.numTimes) > 0 ==> q.currentNumber == old(q.currentNumber) + 1 && q.numTimes == old(q.numTimes) - 1)
            && (old(q.numTimes) <= 0 ==> unchanged(q)))
    {
      var key := CreateRequestKey(params, hostname, endpoint, httpMethod);
      if key !in requests {
        return Err(MockRequestNotFound(key));
      }
      match requests[key]
      case Repository(q) => r := q.GetResponse();
      case Placeholder(q) => r := q.GetResponse();
      case CreatePr(q) => r := q.GetResponse();
      case PrDetails(q) => r := q.GetResponse();
    }
  }
}
