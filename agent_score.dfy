/**
 * The post-commit collector of scripts/post-commit-agent-score.mjs. It turns a code
 * review's text into three category scores and appends a score record to
 * agent-score.json under the agent and version named by the branch.
 *
 * The outside world comes in as parameters:
 * - the review read from standard input;
 * - the branch name and commit id `git` printed (already trimmed);
 * - the score file's text, or `None` when the file does not exist;
 * - what each run of `codex exec` printed or threw;
 * - `JSON.parse`, as a function from text to a value or an error message.
 */
module AgentScore {
  import opened Wrappers
  import opened Json
  import Strings

  const MaxScore := 1000
  const MaxRetries := 3
  const RetryHint := "Please regenerate valid JSON."
  const NoJsonMessage := "No JSON object found in codex output."
  const NoReviewMessage := "No review output received from stdin."
  const Fence := "```"

  /** `JSON.parse`: the parsed value, or the message of the `SyntaxError` it throws. */
  type Parser = string -> Result<Json, string>

  /** Points taken off per MUST_FIX and per SHOULD_FIX issue. */
  datatype Weights = Weights(mustFix: nat, shouldFix: nat)

  const SecurityWeights := Weights(200, 50)
  const CodeQualityWeights := Weights(20, 10)
  const ArchitectureWeights := Weights(100, 50)

  /** The issue counts of one category. */
  datatype Counts = Counts(mustFix: nat, shouldFix: nat)

  /** A validated quantisation of the review. */
  datatype Quantized = Quantized(security: Counts, codeQuality: Counts, architecture: Counts)

  const NoIssues := Quantized(Counts(0, 0), Counts(0, 0), Counts(0, 0))

  /** The three category scores of one record. */
  datatype Scores = Scores(security: nat, codeQuality: nat, architecture: nat) {
    function Total(): nat {
      security + codeQuality + architecture
    }
  }

  // ---------------------------------------------------------------------------
  // Scoring
  // ---------------------------------------------------------------------------

  /**
   * `scoreCategory`: the maximum less the weighted issues, never below zero. With
   * positive weights, only a category without issues keeps the full score.
   */
  function ScoreCategory(c: Counts, w: Weights): (r: nat)
    ensures r <= MaxScore
    ensures r > 0 ==> r + c.mustFix * w.mustFix + c.shouldFix * w.shouldFix == MaxScore
    ensures r == 0 ==> c.mustFix * w.mustFix + c.shouldFix * w.shouldFix >= MaxScore
    ensures w.mustFix > 0 && w.shouldFix > 0 ==> (r == MaxScore <==> c == Counts(0, 0))
  {
    var raw := MaxScore - c.mustFix * w.mustFix - c.shouldFix * w.shouldFix;
    if raw > 0 then raw else 0
  }

  /** More issues never score higher. */
  lemma ScoreCategoryMonotone(c: Counts, d: Counts, w: Weights)
    requires c.mustFix <= d.mustFix && c.shouldFix <= d.shouldFix
    ensures ScoreCategory(d, w) <= ScoreCategory(c, w)
  {
    assert c.mustFix * w.mustFix <= d.mustFix * w.mustFix by {
      MultiplyMonotone(c.mustFix, d.mustFix, w.mustFix);
    }
    assert c.shouldFix * w.shouldFix <= d.shouldFix * w.shouldFix by {
      MultiplyMonotone(c.shouldFix, d.shouldFix, w.shouldFix);
    }
  }

  lemma MultiplyMonotone(a: nat, b: nat, k: nat)
    requires a <= b
    ensures a * k <= b * k
  {
  }

  /** The three category scores; their total lies between 0 and three times the maximum. */
  function Scored(q: Quantized): (s: Scores)
    ensures s.security <= MaxScore && s.codeQuality <= MaxScore && s.architecture <= MaxScore
    ensures s.Total() <= 3 * MaxScore
    ensures s == Scores(MaxScore, MaxScore, MaxScore) <==> q == NoIssues
  {
    Scores(ScoreCategory(q.security, SecurityWeights),
           ScoreCategory(q.codeQuality, CodeQualityWeights),
           ScoreCategory(q.architecture, ArchitectureWeights))
  }

  // ---------------------------------------------------------------------------
  // Validation
  // ---------------------------------------------------------------------------

  /** A category the validation accepts: present, truthy, with two non-negative integer counts. */
  predicate CategoryValid(result: Json, category: string) {
    && TruthyOpt(Get(result, category))
    && NonNegativeInteger(GetOpt(Get(result, category), "must_fix")).Some?
    && NonNegativeInteger(GetOpt(Get(result, category), "should_fix")).Some?
  }

  /** `assertCount`: the count, or the error naming the field. */
  function AssertCount(value: Option<Json>, fieldName: string): (r: Result<nat, string>)
    ensures r.Ok? <==> NonNegativeInteger(value).Some?
    ensures r.Ok? ==> value == Some(JNumber(r.value as real))
    ensures r.Err? ==> r.error == "Invalid count field: " + fieldName
  {
    match NonNegativeInteger(value)
    case Some(n) => Ok(n)
    case None => Err("Invalid count field: " + fieldName)
  }

  /** One round of the loop in `validateQuantizedResult`. */
  function ValidateCategory(result: Json, category: string): (r: Result<Counts, string>)
    ensures r.Ok? <==> CategoryValid(result, category)
    ensures !TruthyOpt(Get(result, category)) ==> r == Err("Missing category: " + category)
    ensures TruthyOpt(Get(result, category)) && NonNegativeInteger(GetOpt(Get(result, category), "must_fix")).None? ==>
              r == Err("Invalid count field: " + (category + ".must_fix"))
    ensures TruthyOpt(Get(result, category)) && NonNegativeInteger(GetOpt(Get(result, category), "must_fix")).Some?
            && NonNegativeInteger(GetOpt(Get(result, category), "should_fix")).None? ==>
              r == Err("Invalid count field: " + (category + ".should_fix"))
    ensures r.Ok? ==> var v := Get(result, category).value;
      Get(v, "must_fix") == Some(JNumber(r.value.mustFix as real))
      && Get(v, "should_fix") == Some(JNumber(r.value.shouldFix as real))
  {
    var v := Get(result, category);
    if !TruthyOpt(v) then Err("Missing category: " + category)
    else
      match AssertCount(Get(v.value, "must_fix"), category + ".must_fix")
      case Err(e) => Err(e)
      case Ok(mustFix) =>
        match AssertCount(Get(v.value, "should_fix"), category + ".should_fix")
        case Err(e) => Err(e)
        case Ok(shouldFix) => Ok(Counts(mustFix, shouldFix))
  }

  /**
   * `validateQuantizedResult`: the categories are checked in the order security,
   * code_quality, architecture, and the first failure is reported.
   */
  function ValidateQuantized(result: Json): (r: Result<Quantized, string>)
    ensures r.Ok? <==> CategoryValid(result, "security") && CategoryValid(result, "code_quality")
                       && CategoryValid(result, "architecture")
    ensures r.Ok? ==> && ValidateCategory(result, "security") == Ok(r.value.security)
                      && ValidateCategory(result, "code_quality") == Ok(r.value.codeQuality)
                      && ValidateCategory(result, "architecture") == Ok(r.value.architecture)
    ensures !CategoryValid(result, "security") ==> r == Err(ValidateCategory(result, "security").error)
    ensures CategoryValid(result, "security") && !CategoryValid(result, "code_quality") ==>
              r == Err(ValidateCategory(result, "code_quality").error)
    ensures CategoryValid(result, "security") && CategoryValid(result, "code_quality")
            && !CategoryValid(result, "architecture") ==>
              r == Err(ValidateCategory(result, "architecture").error)
  {
    match ValidateCategory(result, "security")
    case Err(e) => Err(e)
    case Ok(security) =>
      match ValidateCategory(result, "code_quality")
      case Err(e) => Err(e)
      case Ok(codeQuality) =>
        match ValidateCategory(result, "architecture")
        case Err(e) => Err(e)
        case Ok(architecture) => Ok(Quantized(security, codeQuality, architecture))
  }

  /** The JSON object the prompt asks for, for given counts. */
  function CountsJson(c: Counts): Json {
    JObject(map["must_fix" := JNumber(c.mustFix as real), "should_fix" := JNumber(c.shouldFix as real)])
  }

  function QuantizedJson(q: Quantized): Json {
    JObject(map["security" := CountsJson(q.security),
                "code_quality" := CountsJson(q.codeQuality),
                "architecture" := CountsJson(q.architecture)])
  }

  /** An answer in the requested shape validates to exactly its counts. */
  lemma ValidateRoundTrip(q: Quantized)
    ensures ValidateQuantized(QuantizedJson(q)) == Ok(q)
  {
    var j := QuantizedJson(q);
    CountsRoundTrip(j, "security", q.security);
    CountsRoundTrip(j, "code_quality", q.codeQuality);
    CountsRoundTrip(j, "architecture", q.architecture);
  }

  lemma CountsRoundTrip(j: Json, category: string, c: Counts)
    requires Get(j, category) == Some(CountsJson(c))
    ensures ValidateCategory(j, category) == Ok(c)
  {
    var v := CountsJson(c);
    assert Get(v, "must_fix") == Some(JNumber(c.mustFix as real));
    assert Get(v, "should_fix") == Some(JNumber(c.shouldFix as real));
  }

  // ---------------------------------------------------------------------------
  // Matching in the review and in codex's answer
  // ---------------------------------------------------------------------------

  /** Characters equal under the `i` flag of a non-Unicode regular expression: ASCII letters match either case. */
  predicate CaseInsensitiveEq(c: char, p: char) {
    || c == p
    || ('a' <= p <= 'z' && c as int == p as int - 32)
    || ('A' <= p <= 'Z' && c as int == p as int + 32)
  }

  predicate CaseInsensitiveAt(s: string, pat: string, i: int) {
    0 <= i && i + |pat| <= |s| && forall k | 0 <= k < |pat| :: CaseInsensitiveEq(s[i + k], pat[k])
  }

  /** `/MUST_FIX:\s*\(none\)/i` matches at index `i`. */
  predicate NoneMarkerAt(s: string, i: int) {
    CaseInsensitiveAt(s, "MUST_FIX:", i) && CaseInsensitiveAt(s, "(none)", Strings.SkipWhitespace(s, i + 9))
  }

  /** The marker occurs at `from` or later. */
  function NoneMarkerFrom(s: string, from: nat): (r: bool)
    requires from <= |s|
    decreases |s| - from
    ensures r <==> exists i | from <= i <= |s| :: NoneMarkerAt(s, i)
  {
    if NoneMarkerAt(s, from) then true
    else if from == |s| then false
    else NoneMarkerFrom(s, from + 1)
  }

  /** `hasNoMustFix`: the review says "MUST_FIX: (none)" somewhere, in any letter case. */
  function HasNoMustFix(review: string): (r: bool)
    ensures r <==> exists i | 0 <= i <= |review| :: NoneMarkerAt(review, i)
  {
    NoneMarkerFrom(review, 0)
  }

  /**
   * The content the code-fence pattern ```` /```(?:json)?\s*([\s\S]*?)\s*```/i ```` captures, as
   * a span of `t`. The match starts at the first fence; after an optional "json" and
   * whitespace, the lazy group ends at the whitespace before the next fence. When that
   * first fence has no closing fence, no later one has either, so there is no match.
   */
  function FenceSpan(t: string): (r: Option<(nat, nat)>)
    ensures var first := Strings.IndexOf(t, Fence, 0);
      r.Some? <==> first >= 0 && Strings.IndexOf(t, Fence, ContentStart(t, first)) >= 0
    ensures r.Some? ==>
      var lo := ContentStart(t, Strings.IndexOf(t, Fence, 0));
      r.value == (lo, Strings.BackWhitespace(t, lo, Strings.IndexOf(t, Fence, lo)))
    ensures r.Some? ==> r.value.0 <= r.value.1 <= |t|
    ensures r.Some? ==> !Strings.Contains(t[r.value.0..r.value.1], Fence)
    ensures r.Some? && r.value.0 < r.value.1 ==>
              !Strings.IsWhitespace(t[r.value.0]) && !Strings.IsWhitespace(t[r.value.1 - 1])
    ensures !Strings.Contains(t, Fence) ==> r.None?
  {
    var first := Strings.IndexOf(t, Fence, 0);
    if first < 0 then None
    else
      var lo := ContentStart(t, first);
      var close := Strings.IndexOf(t, Fence, lo);
      if close < 0 then None
      else
        var hi := Strings.BackWhitespace(t, lo, close);
        NoFenceBefore(t, lo, hi, close);
        Some((lo, hi))
  }

  /**
   * Where the captured content of a fence opened at `first` starts: past the three
   * backticks, an optional "json" in any letter case, and the whitespace after them.
   */
  function ContentStart(t: string, first: nat): (lo: nat)
    requires first + |Fence| <= |t|
    ensures first + |Fence| <= lo <= |t|
    ensures lo == |t| || !Strings.IsWhitespace(t[lo])
    ensures if CaseInsensitiveAt(t, "json", first + |Fence|)
            then lo == Strings.SkipWhitespace(t, first + |Fence| + 4)
            else lo == Strings.SkipWhitespace(t, first + |Fence|)
  {
    var p := first + |Fence|;
    var q := if CaseInsensitiveAt(t, "json", p) then p + 4 else p;
    Strings.SkipWhitespace(t, q)
  }

  /** Nothing between `lo` and `hi` holds a fence when the first fence from `lo` is at `close >= hi`. */
  lemma NoFenceBefore(t: string, lo: nat, hi: nat, close: nat)
    requires lo <= hi <= close <= |t|
    requires forall j | lo <= j < close :: !Strings.OccursAt(t, Fence, j)
    ensures !Strings.Contains(t[lo..hi], Fence)
  {
    var c := t[lo..hi];
    forall i | 0 <= i <= |c|
      ensures !Strings.OccursAt(c, Fence, i)
    {
      if i + |Fence| <= |c| {
        SliceOfSlice(t, lo, hi, i, i + |Fence|);
        assert !Strings.OccursAt(t, Fence, lo + i);
      }
    }
  }

  lemma SliceOfSlice(t: string, lo: nat, hi: nat, i: nat, j: nat)
    requires lo <= hi <= |t| && i <= j <= hi - lo
    ensures t[lo..hi][i..j] == t[lo + i..lo + j]
  {
    var a, b := t[lo..hi][i..j], t[lo + i..lo + j];
    assert |a| == |b|;
    forall k | 0 <= k < |a|
      ensures a[k] == b[k]
    {
    }
  }

  /** `JSON.parse` accepted a contiguous piece of `t` and produced `v`. */
  predicate ParsedSlice(t: string, parse: Parser, v: Json) {
    exists lo, hi | 0 <= lo <= hi <= |t| :: parse(t[lo..hi]) == Ok(v)
  }

  /**
   * `extractJsonObject`: the whole trimmed text first; failing that, the fallback
   * below on the trimmed text.
   */
  function ExtractJsonObject(text: string, parse: Parser): (r: Result<Json, string>)
    ensures parse(Strings.Trim(text)).Ok? ==> r == parse(Strings.Trim(text))
    ensures parse(Strings.Trim(text)).Err? ==> r == ExtractFallback(Strings.Trim(text), parse)
    ensures r.Ok? ==> ParsedSlice(Strings.Trim(text), parse, r.value)
    ensures (parse(Strings.Trim(text)).Err? && !Strings.Contains(Strings.Trim(text), Fence)
             && !Strings.Contains(Strings.Trim(text), "{")) ==> r == Err(NoJsonMessage)
  {
    var t := Strings.Trim(text);
    var whole := parse(t);
    if whole.Ok? then
      assert t[0..|t|] == t;
      whole
    else
      ExtractFallback(t, parse)
  }

  /**
   * The `catch` branch of `extractJsonObject` on the trimmed text `t`: the first code
   * fence, whose parse error is final; with no fence, the span from the first '{' to
   * the last '}'; with neither, the "no JSON" error.
   */
  function ExtractFallback(t: string, parse: Parser): (r: Result<Json, string>)
    ensures FenceSpan(t).Some? ==> r == parse(t[FenceSpan(t).value.0..FenceSpan(t).value.1])
    ensures FenceSpan(t).None? ==>
      var start, end := Strings.IndexOf(t, "{", 0), Strings.LastIndexOf(t, '}');
      r == if start >= 0 && end > start then parse(t[start..end + 1]) else Err(NoJsonMessage)
    ensures r.Ok? ==> ParsedSlice(t, parse, r.value)
    ensures !Strings.Contains(t, Fence) && !Strings.Contains(t, "{") ==> r == Err(NoJsonMessage)
  {
    var fence := FenceSpan(t);
    if fence.Some? then
      parse(t[fence.value.0..fence.value.1])
    else
      var start := Strings.IndexOf(t, "{", 0);
      var end := Strings.LastIndexOf(t, '}');
      if start >= 0 && end > start then parse(t[start..end + 1])
      else
        assert !Strings.Contains(t, "{") ==> start < 0;
        Err(NoJsonMessage)
  }

  // ---------------------------------------------------------------------------
  // Quantisation with retries
  // ---------------------------------------------------------------------------

  /** One attempt: what codex printed (or threw), extracted and validated. */
  function Attempt(output: Result<string, string>, parse: Parser): (r: Result<Quantized, string>)
    ensures output.Err? ==> r == Err(output.error)
    ensures r.Ok? ==> exists v :: ParsedSlice(Strings.Trim(output.value), parse, v) && ValidateQuantized(v) == r
  {
    match output
    case Err(e) => Err(e)
    case Ok(text) =>
      match ExtractJsonObject(text, parse)
      case Err(e) => Err(e)
      case Ok(v) => ValidateQuantized(v)
  }

  /** `Attempt` with the parser fixed, as `quantizeWithRetry` runs it. */
  function AttemptWith(parse: Parser): Result<string, string> -> Result<Quantized, string> {
    o => Attempt(o, parse)
  }

  /**
   * The answer of a run of attempts over `outputs`: the first valid one, or the last
   * attempt's error when none is valid.
   */
  function FirstValid(outputs: seq<Result<string, string>>, attempt: Result<string, string> -> Result<Quantized, string>)
    : (r: Result<Quantized, string>)
    requires |outputs| > 0
    decreases |outputs|
    ensures r.Ok? <==> exists i | 0 <= i < |outputs| :: attempt(outputs[i]).Ok?
    ensures r.Err? ==> r == attempt(outputs[|outputs| - 1])
    ensures r.Ok? ==> exists i | 0 <= i < |outputs| :: r == attempt(outputs[i]) && forall j | 0 <= j < i :: attempt(outputs[j]).Err?
  {
    var a := attempt(outputs[0]);
    if a.Ok? || |outputs| == 1 then a
    else
      var rest := FirstValid(outputs[1..], attempt);
      assert forall i | 1 <= i < |outputs| :: outputs[i] == outputs[1..][i - 1];
      rest
  }

  /**
   * When attempt `k` (counting from 1) is the first valid one, or the last one and
   * all before it failed, it gives the run's answer.
   */
  lemma {:induction false} FirstValidAt(outputs: seq<Result<string, string>>,
                                        attempt: Result<string, string> -> Result<Quantized, string>, k: nat)
    requires 1 <= k <= |outputs|
    requires forall j | 0 <= j < k - 1 :: attempt(outputs[j]).Err?
    requires attempt(outputs[k - 1]).Ok? || k == |outputs|
    ensures FirstValid(outputs, attempt) == attempt(outputs[k - 1])
    decreases k
  {
    if k > 1 {
      assert attempt(outputs[0]).Err?;
      assert forall j | 0 <= j < k - 2 :: outputs[1..][j] == outputs[j + 1];
      FirstValidAt(outputs[1..], attempt, k - 1);
      assert outputs[1..][k - 2] == outputs[k - 1];
    }
  }

  /**
   * `quantizeWithRetry`: at most `MaxRetries` attempts, the first with no hint and the
   * later ones asking to regenerate valid JSON. It returns the first valid answer, or
   * the last attempt's error; the fallback error is never reached, since three failed
   * attempts leave an error behind. `hints` are the hints of the attempts made, and
   * `attempt` is what one attempt yields for codex's output (`Attempt` with the parser).
   */
  method QuantizeWithRetry(outputs: seq<Result<string, string>>, attempt: Result<string, string> -> Result<Quantized, string>)
    returns (r: Result<Quantized, string>, hints: seq<string>)
    requires |outputs| == MaxRetries
    ensures 1 <= |hints| <= MaxRetries
    ensures forall i | 0 <= i < |hints| :: hints[i] == AttemptHint(i + 1)
    ensures forall i | 0 <= i < |hints| - 1 :: attempt(outputs[i]).Err?
    ensures r == attempt(outputs[|hints| - 1])
    ensures r.Err? ==> |hints| == MaxRetries
    ensures r == FirstValid(outputs, attempt)
  {
    r := Err("Failed to get a valid JSON result from codex.");
    var retryHint := "";
    hints := [];
    var n := 1;
    while n <= MaxRetries
      invariant 1 <= n <= MaxRetries + 1
      invariant |hints| == n - 1
      invariant HintsSoFar(hints)
      invariant retryHint == AttemptHint(n)
      invariant forall i | 0 <= i < |hints| :: attempt(outputs[i]).Err?
      invariant n > 1 ==> r == attempt(outputs[n - 2])
    {
      HintsStep(hints, retryHint);
      hints := hints + [retryHint];
      var outcome := attempt(outputs[n - 1]);
      if outcome.Ok? {
        FirstValidAt(outputs, attempt, n);
        return outcome, hints;
      }
      if n == MaxRetries {
        FirstValidAt(outputs, attempt, n);
      }
      r := outcome;
      retryHint := RetryHint;
      n := n + 1;
    }
  }

  /** The hint of attempt number `attempt`, counting from 1. */
  function AttemptHint(attempt: nat): (h: string)
    ensures h == "" <==> attempt <= 1
  {
    if attempt <= 1 then "" else RetryHint
  }

  predicate HintsSoFar(hints: seq<string>) {
    forall i | 0 <= i < |hints| :: hints[i] == AttemptHint(i + 1)
  }

  lemma HintsStep(hints: seq<string>, next: string)
    requires HintsSoFar(hints) && next == AttemptHint(|hints| + 1)
    ensures HintsSoFar(hints + [next])
  {
  }

  // ---------------------------------------------------------------------------
  // The score file
  // ---------------------------------------------------------------------------

  /**
   * The root object `appendScoreRecord` starts from: `{}` for a missing or blank file,
   * otherwise the parsed text, which must be an object.
   */
  function ReadRoot(existing: Option<string>, parse: Parser, path: string): (r: Result<map<string, Json>, string>)
    ensures existing.None? || Strings.AllWhitespace(existing.value) ==> r == Ok(map[])
    ensures existing.Some? && !Strings.AllWhitespace(existing.value) ==>
              (r.Ok? <==> parse(Strings.Trim(existing.value)).Ok? && parse(Strings.Trim(existing.value)).value.JObject?)
    ensures r.Ok? && existing.Some? && !Strings.AllWhitespace(existing.value) ==>
              parse(Strings.Trim(existing.value)) == Ok(JObject(r.value))
  {
    if existing.None? then Ok(map[])
    else
      var raw := Strings.Trim(existing.value);
      Strings.TrimEmptyIffBlank(existing.value);
      if |raw| == 0 then Ok(map[])
      else
        match parse(raw)
        case Err(e) => Err(e)
        case Ok(JObject(fields)) => Ok(fields)
        case Ok(_) => Err("Invalid JSON root in " + path + ": expected object.")
  }

  /** The agent's entry once a falsy one has been replaced by `{}`. */
  function AgentSlot(root: map<string, Json>, agent: string): (r: Json)
    ensures Truthy(r)
  {
    if agent in root && Truthy(root[agent]) then root[agent] else JObject(map[])
  }

  /** The version's entry once a falsy one has been replaced by `[]`. */
  function VersionSlot(versions: map<string, Json>, version: string): Json {
    if version in versions && Truthy(versions[version]) then versions[version] else JArray([])
  }

  function InvalidPathMessage(agent: string, version: string): string {
    "Invalid path in agent-score.json: " + agent + "." + version + " must be an array."
  }

  /** The message of the `TypeError` a strict-mode assignment to a primitive's property throws. */
  function CannotCreateMessage(version: string, kind: string, text: string): string {
    "Cannot create property '" + version + "' on " + kind + " '" + text + "'"
  }

  /** One more than the largest array index, 2^32 - 1. */
  const MaxArrayLength := 0xFFFF_FFFF

  /**
   * The array index a property key names: a key is one exactly when it is the
   * canonical decimal form of a number below 2^32 - 1.
   */
  function ArrayIndex(key: string): (r: Option<nat>)
    ensures r.Some? ==> key == Strings.DecimalString(r.value) && r.value < MaxArrayLength
  {
    if key != [] && (forall i | 0 <= i < |key| :: Strings.IsDigit(key[i]))
       && Strings.DecimalString(Strings.DecimalValue(key)) == key
       && Strings.DecimalValue(key) < MaxArrayLength
    then Some(Strings.DecimalValue(key))
    else None
  }

  /** Every number below 2^32 - 1, written in decimal, is an array index. */
  lemma ArrayIndexOf(n: nat)
    requires n < MaxArrayLength
    ensures ArrayIndex(Strings.DecimalString(n)) == Some(n)
  {
    Strings.DecimalRoundTrip(n);
  }

  /** The array element at `i` once a falsy or missing one has been replaced by `[]`. */
  function ElementSlot(items: seq<Json>, i: nat): Json {
    if i < |items| && Truthy(items[i]) then items[i] else JArray([])
  }

  /**
   * `items[i] = v`: past the end the array grows to `i + 1` elements, and the holes
   * are written as `null` by `JSON.stringify`.
   */
  function SetIndex(items: seq<Json>, i: nat, v: Json): (r: seq<Json>)
    ensures |r| == if i < |items| then |items| else i + 1
    ensures r[i] == v
    ensures forall k | 0 <= k < |r| && k != i :: r[k] == if k < |items| then items[k] else JNull
  {
    if i < |items| then items[i := v] else items + seq(i - |items|, _ => JNull) + [v]
  }

  /**
   * The text `String(n)` gives for an integer: its decimal digits after a minus sign
   * when it is negative.
   */
  function NumberText(n: real): (r: string)
    ensures n == n.Floor as real && n >= 0.0 ==> r == Strings.DecimalString(n.Floor)
    ensures n == n.Floor as real && n < 0.0 ==> r == "-" + Strings.DecimalString(-n.Floor)
  {
    if n >= 0.0 then Strings.DecimalString(n.Floor) else "-" + Strings.DecimalString(-n.Floor)
  }

  /**
   * `appendScoreRecord` on the root object, after a falsy agent entry has become `{}`:
   * an object entry and an array entry are indexed by the version as below; a string,
   * number or `true` entry makes the property test or the assignment fail. Every other
   * agent is left as it was.
   */
  function AppendScoreRecord(root: map<string, Json>, agent: string, version: string, record: Json)
    : (r: Result<map<string, Json>, string>)
    ensures r.Ok? ==> r.value.Keys == root.Keys + {agent}
    ensures r.Ok? ==> forall a | a in root && a != agent :: r.value[a] == root[a]
    ensures AgentSlot(root, agent).JObject? ==>
              r == AppendToObject(root, agent, AgentSlot(root, agent).fields, version, record)
    ensures AgentSlot(root, agent).JArray? ==>
              r == AppendToArray(root, agent, AgentSlot(root, agent).items, version, record)
    ensures !AgentSlot(root, agent).JObject? && !AgentSlot(root, agent).JArray? ==>
              r == Err(PrimitiveError(AgentSlot(root, agent), agent, version))
  {
    match AgentSlot(root, agent)
    case JObject(versions) => AppendToObject(root, agent, versions, version, record)
    case JArray(items) => AppendToArray(root, agent, items, version, record)
    case JString(_) | JNumber(_) | JBool(_) => Err(PrimitiveError(AgentSlot(root, agent), agent, version))
  }

  /**
   * An object agent entry gets the version's list, created when falsy, with the record
   * at its end; the append fails with the path message when that entry is not a list.
   */
  function AppendToObject(root: map<string, Json>, agent: string, versions: map<string, Json>, version: string,
                          record: Json): (r: Result<map<string, Json>, string>)
    ensures r.Ok? <==> VersionSlot(versions, version).JArray?
    ensures r.Err? ==> r.error == InvalidPathMessage(agent, version)
    ensures r.Ok? ==> agent in r.value && r.value == root[agent := r.value[agent]]
    ensures r.Ok? ==>
              && r.value[agent].JObject?
              && r.value[agent].fields.Keys == versions.Keys + {version}
              && (forall v | v in versions && v != version :: r.value[agent].fields[v] == versions[v])
              && r.value[agent].fields[version] == JArray(VersionSlot(versions, version).items + [record])
  {
    match VersionSlot(versions, version)
    case JArray(records) => Ok(root[agent := JObject(versions[version := JArray(records + [record])])])
    case _ => Err(InvalidPathMessage(agent, version))
  }

  /**
   * An array agent entry indexed by the version: `length` is a number, never a list;
   * an index gets the element's list, created when falsy, the array growing to reach
   * it; any other key sets a property `JSON.stringify` does not write, so the file
   * keeps its old contents and the record is lost.
   */
  function AppendToArray(root: map<string, Json>, agent: string, items: seq<Json>, version: string, record: Json)
    : (r: Result<map<string, Json>, string>)
    requires agent in root
    ensures ArrayIndex(version).None? ==>
              r == if version == "length" then Err(InvalidPathMessage(agent, version)) else Ok(root)
    ensures ArrayIndex(version).Some? ==> var i := ArrayIndex(version).value;
              && (r.Ok? <==> ElementSlot(items, i).JArray?)
              && (r.Err? ==> r.error == InvalidPathMessage(agent, version))
              && (r.Ok? ==> r.value == root[agent := JArray(SetIndex(items, i, JArray(ElementSlot(items, i).items + [record])))])
  {
    match ArrayIndex(version)
    case None => if version == "length" then Err(InvalidPathMessage(agent, version)) else Ok(root)
    case Some(i) =>
      match ElementSlot(items, i)
      case JArray(records) => Ok(root[agent := JArray(SetIndex(items, i, JArray(records + [record])))])
      case _ => Err(InvalidPathMessage(agent, version))
  }

  /**
   * The error for a string, number or `true` agent entry: a string has a one-character
   * string at each of its indices and a number as `length`, which fail the list test;
   * under any other key, as on a number or `true`, the strict-mode assignment of `[]`
   * throws a `TypeError`.
   */
  function PrimitiveError(slot: Json, agent: string, version: string): (e: string)
    requires slot.JString? || slot.JNumber? || slot.JBool?
    ensures slot.JString? ==>
              e == if version == "length" || (ArrayIndex(version).Some? && ArrayIndex(version).value < Strings.Utf16Length(slot.s))
                   then InvalidPathMessage(agent, version)
                   else CannotCreateMessage(version, "string", slot.s)
    ensures slot.JNumber? ==> e == CannotCreateMessage(version, "number", NumberText(slot.n))
    ensures slot.JBool? ==> e == CannotCreateMessage(version, "boolean", if slot.b then "true" else "false")
  {
    match slot
    case JString(text) =>
      if version == "length" || (ArrayIndex(version).Some? && ArrayIndex(version).value < Strings.Utf16Length(text))
      then InvalidPathMessage(agent, version)
      else CannotCreateMessage(version, "string", text)
    case JNumber(n) => CannotCreateMessage(version, "number", NumberText(n))
    case JBool(b) => CannotCreateMessage(version, "boolean", if b then "true" else "false")
  }

  /** In a new score file the record becomes the only entry of its agent and version. */
  lemma AppendToEmptyFile(agent: string, version: string, record: Json)
    ensures AppendScoreRecord(map[], agent, version, record) == Ok(map[agent := JObject(map[version := JArray([record])])])
  {
    assert AgentSlot(map[], agent) == JObject(map[]);
    assert VersionSlot(map[], version) == JArray([]);
    assert [] + [record] == [record];
  }

  /** The whole append: read the file, then add the record. */
  function StoreRecord(existing: Option<string>, parse: Parser, path: string, agent: string, version: string, record: Json)
    : (r: Result<map<string, Json>, string>)
    ensures existing.None? ==> r == AppendScoreRecord(map[], agent, version, record)
    ensures ReadRoot(existing, parse, path).Ok? ==>
              r == AppendScoreRecord(ReadRoot(existing, parse, path).value, agent, version, record)
    ensures ReadRoot(existing, parse, path).Err? ==> r == Err(ReadRoot(existing, parse, path).error)
  {
    match ReadRoot(existing, parse, path)
    case Err(e) => Err(e)
    case Ok(root) => AppendScoreRecord(root, agent, version, record)
  }

  // ---------------------------------------------------------------------------
  // The branch and the run
  // ---------------------------------------------------------------------------

  /** The characters the regular expression `.` does not match. */
  predicate IsLineTerminator(c: char) {
    c == '\n' || c == '\r' || c == '\U{2028}' || c == '\U{2029}'
  }

  /** What `[^/]+` matches. */
  predicate IsSegment(s: string) {
    s != [] && forall i | 0 <= i < |s| :: s[i] != '/'
  }

  /** What `.+` matches. */
  predicate IsTask(s: string) {
    s != [] && forall i | 0 <= i < |s| :: !IsLineTerminator(s[i])
  }

  datatype AgentBranch = AgentBranch(agent: string, version: string, task: string)

  function BranchName(b: AgentBranch): string {
    "agents/" + b.agent + "/" + b.version + "/" + b.task
  }

  /** The first '/' of `s`, or -1. */
  function SlashIndex(s: string): (r: int)
    ensures -1 <= r < |s|
    ensures r >= 0 ==> s[r] == '/'
    ensures forall j | 0 <= j < (if r < 0 then |s| else r) :: s[j] != '/'
  {
    var r := Strings.IndexOf(s, "/", 0);
    forall j | 0 <= j < (if r < 0 then |s| else r)
      ensures s[j] != '/'
    {
      if s[j] == '/' {
        assert Strings.OccursAt(s, "/", j);
      }
    }
    r
  }

  /** What `([^/]+)\/` consumes from the front of `s`: a '/'-free segment and its slash. */
  function SplitSegment(s: string): (r: Option<(string, string)>)
    ensures r.Some? ==> IsSegment(r.value.0) && s == r.value.0 + "/" + r.value.1
  {
    var i := SlashIndex(s);
    if i <= 0 then None
    else
      assert s == s[..i] + "/" + s[i + 1..];
      Some((s[..i], s[i + 1..]))
  }

  lemma SplitSegmentOf(a: string, rest: string)
    requires IsSegment(a)
    ensures SplitSegment(a + "/" + rest) == Some((a, rest))
  {
    var s := a + "/" + rest;
    assert s[|a|] == '/';
    assert s[..|a|] == a && s[|a| + 1..] == rest;
  }

  /**
   * The branch test `/^agents\/([^/]+)\/([^/]+)\/.+$/`: the agent and version are the
   * first two '/'-free segments after "agents/", and the rest must be a non-empty
   * single line.
   */
  function ParseBranch(branch: string): (r: Option<AgentBranch>)
    ensures r.Some? ==> IsSegment(r.value.agent) && IsSegment(r.value.version) && IsTask(r.value.task)
    ensures r.Some? ==> branch == BranchName(r.value)
  {
    if !Strings.StartsWith(branch, "agents/") then None
    else
      var first := SplitSegment(branch[7..]);
      if first.None? then None
      else
        var second := SplitSegment(first.value.1);
        if second.None? || !IsTask(second.value.1) then None
        else
          var b := AgentBranch(first.value.0, second.value.0, second.value.1);
          BranchJoin(branch, first.value.1, b);
          Some(b)
  }

  lemma BranchJoin(branch: string, rest: string, b: AgentBranch)
    requires |branch| >= 7 && branch[..7] == "agents/" && branch[7..] == b.agent + "/" + rest
    requires rest == b.version + "/" + b.task
    ensures branch == BranchName(b)
  {
    assert branch == branch[..7] + branch[7..];
  }

  /** Every branch of the form agents/<agent>/<version>/<task> is recognised, with its parts. */
  lemma ParseBranchName(b: AgentBranch)
    requires IsSegment(b.agent) && IsSegment(b.version) && IsTask(b.task)
    ensures ParseBranch(BranchName(b)) == Some(b)
  {
    var branch := BranchName(b);
    var rest := b.version + "/" + b.task;
    assert branch == "agents/" + (b.agent + "/" + rest);
    assert branch[..7] == "agents/" && branch[7..] == b.agent + "/" + rest;
    SplitSegmentOf(b.agent, rest);
    SplitSegmentOf(b.version, b.task);
  }

  /** The record `main` appends. */
  function ScoreRecord(b: AgentBranch, branch: string, commitId: string, collectedAt: string, s: Scores): (r: Json)
    ensures Get(r, "total_score") == Some(JNumber(s.Total() as real))
  {
    JObject(map[
      "agent" := JString(b.agent),
      "version" := JString(b.version),
      "branch" := JString(branch),
      "commit_id" := JString(commitId),
      "collected_at" := JString(collectedAt),
      "security_score" := JNumber(s.security as real),
      "code_quality_score" := JNumber(s.codeQuality as real),
      "architecture_score" := JNumber(s.architecture as real),
      "total_score" := JNumber(s.Total() as real)])
  }

  datatype Collection =
    | Failed(message: string)
    | Skipped
    | Collected(root: map<string, Json>, scores: Scores)

  /**
   * `main`: an empty review is an error; a branch outside agents/<agent>/<version>/<task>
   * is skipped; a review saying "MUST_FIX: (none)" scores full marks without asking
   * codex; otherwise codex's quantisation is scored. The record is appended to the
   * score file, whose new root is `root`.
   */
  method CollectScore(stdin: string, branch: string, commitId: string, collectedAt: string, path: string,
                      existing: Option<string>, outputs: seq<Result<string, string>>, parse: Parser)
    returns (c: Collection)
    requires |outputs| == MaxRetries
    ensures Strings.AllWhitespace(stdin) ==> c == Failed(NoReviewMessage)
    ensures !Strings.AllWhitespace(stdin) && ParseBranch(branch).None? ==> c == Skipped
    ensures c.Collected? ==> ParseBranch(branch).Some? && c.scores.Total() <= 3 * MaxScore
    ensures c.Collected? && HasNoMustFix(Strings.Trim(stdin)) ==> c.scores == Scores(MaxScore, MaxScore, MaxScore)
    ensures !Strings.AllWhitespace(stdin) && ParseBranch(branch).Some? ==>
              var b := ParseBranch(branch).value;
              var q := if HasNoMustFix(Strings.Trim(stdin)) then Ok(NoIssues) else FirstValid(outputs, AttemptWith(parse));
              && (q.Err? ==> c == Failed(q.error))
              && (q.Ok? ==>
                    var stored := StoreRecord(existing, parse, path, b.agent, b.version,
                                              ScoreRecord(b, branch, commitId, collectedAt, Scored(q.value)));
                    c == if stored.Ok? then Collected(stored.value, Scored(q.value)) else Failed(stored.error))
  {
    var review := Strings.Trim(stdin);
    Strings.TrimEmptyIffBlank(stdin);
    if review == "" {
      return Failed(NoReviewMessage);
    }
    var parsed := ParseBranch(branch);
    if parsed.None? {
      return Skipped;
    }
    var b := parsed.value;
    var q: Quantized;
    if HasNoMustFix(review) {
      q := NoIssues;
    } else {
      var outcome, _ := QuantizeWithRetry(outputs, AttemptWith(parse));
      if outcome.Err? {
        return Failed(outcome.error);
      }
      q := outcome.value;
    }
    var scores := Scored(q);
    var record := ScoreRecord(b, branch, commitId, collectedAt, scores);
    var stored := StoreRecord(existing, parse, path, b.agent, b.version, record);
    if stored.Err? {
      return Failed(stored.error);
    }
    return Collected(stored.value, scores);
  }
}
