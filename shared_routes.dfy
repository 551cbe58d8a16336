/**
 * The shared API description: the bound on a review's quality and `buildUrl`, which fills the
 * `:key` placeholders of a route path. Strings follow JavaScript's `includes` and `replace`
 * with a string pattern, including the `$` patterns that `replace` expands in its replacement.
 */
module SharedRoutes {
  import opened Wrappers

  // ---------------------------------------------------------------------------
  // Review input
  // ---------------------------------------------------------------------------

  /** The body schema of a review: a quality from 0 to 5, both ends included. */
  function ParseReviewInput(quality: int): (r: Option<int>)
    ensures r.Some? <==> 0 <= quality <= 5
    ensures r.Some? ==> r.value == quality
  {
    if 0 <= quality && quality <= 5 then Some(quality) else None
  }

  // ---------------------------------------------------------------------------
  // String searching and replacement
  // ---------------------------------------------------------------------------

  /** `pat` occurs in `s` starting at index `i`. */
  predicate OccursAt(s: string, pat: string, i: int) {
    0 <= i && i + |pat| <= |s| && s[i..i + |pat|] == pat
  }

  /** The first index at or after `from` where `pat` occurs. */
  function IndexFrom(s: string, pat: string, from: nat): (r: Option<nat>)
    ensures r.Some? ==> from <= r.value && OccursAt(s, pat, r.value)
    ensures r.Some? ==> forall j :: from <= j < r.value ==> !OccursAt(s, pat, j)
    ensures r.None? ==> forall j :: from <= j ==> !OccursAt(s, pat, j)
    decreases |s| - from
  {
    if from + |pat| > |s| then None
    else if s[from..from + |pat|] == pat then Some(from)
    else IndexFrom(s, pat, from + 1)
  }

  /** `s.indexOf(pat)`, as an option. */
  function IndexOf(s: string, pat: string): (r: Option<nat>)
    ensures r.Some? <==> exists j :: OccursAt(s, pat, j)
  {
    IndexFrom(s, pat, 0)
  }

  /** `s.includes(pat)`. */
  function Includes(s: string, pat: string): (b: bool)
    ensures b <==> exists j :: OccursAt(s, pat, j)
  {
    IndexOf(s, pat).Some?
  }

  /**
   * The text `replace` puts in place of the match: `$$` stands for `$`, `$&` for the match,
   * `` $` `` for the text before it and `$'` for the text after it; with a string pattern there
   * are no capture groups, so every other `$` is kept as it is.
   */
  function Expand(rep: string, matched: string, before: string, after: string): (r: string)
    ensures forall c :: c in r ==> c in rep || c in matched || c in before || c in after
    decreases |rep|
  {
    if rep == [] then []
    else if rep[0] == '$' && |rep| >= 2 && rep[1] == '$' then "$" + Expand(rep[2..], matched, before, after)
    else if rep[0] == '$' && |rep| >= 2 && rep[1] == '&' then matched + Expand(rep[2..], matched, before, after)
    else if rep[0] == '$' && |rep| >= 2 && rep[1] == '`' then before + Expand(rep[2..], matched, before, after)
    else if rep[0] == '$' && |rep| >= 2 && rep[1] == '\'' then after + Expand(rep[2..], matched, before, after)
    else [rep[0]] + Expand(rep[1..], matched, before, after)
  }

  /** `s.replace(pat, rep)` with a string pattern: only the first occurrence is replaced. */
  function Replace(s: string, pat: string, rep: string): (r: string)
    ensures IndexOf(s, pat).None? ==> r == s
    ensures IndexOf(s, pat).Some? ==>
      var i := IndexOf(s, pat).value;
      var tail := |s| - i - |pat|;
      |r| >= i + tail && r[..i] == s[..i] && r[|r| - tail..] == s[i + |pat|..]
  {
    match IndexOf(s, pat)
    case None => s
    case Some(i) => s[..i] + Expand(rep, pat, s[..i], s[i + |pat|..]) + s[i + |pat|..]
  }

  /** A replacement without a `$` is inserted as it is. */
  lemma {:induction false} ExpandWithoutDollar(rep: string, matched: string, before: string, after: string)
    requires '$' !in rep
    ensures Expand(rep, matched, before, after) == rep
    decreases |rep|
  {
    if rep != [] {
      assert rep == [rep[0]] + rep[1..];
      ExpandWithoutDollar(rep[1..], matched, before, after);
    }
  }

  /** The first occurrence is the one `indexOf` finds. */
  lemma IndexOfFirst(s: string, pat: string, i: nat)
    requires OccursAt(s, pat, i) && forall j :: 0 <= j < i ==> !OccursAt(s, pat, j)
    ensures IndexOf(s, pat) == Some(i)
  {
  }

  /** Replacing splices the (expanded) replacement over the first occurrence and keeps the rest. */
  lemma ReplaceFirstOccurrence(s: string, pat: string, rep: string, i: nat)
    requires OccursAt(s, pat, i) && forall j :: 0 <= j < i ==> !OccursAt(s, pat, j)
    requires '$' !in rep
    ensures Replace(s, pat, rep) == s[..i] + rep + s[i + |pat|..]
  {
    IndexOfFirst(s, pat, i);
    ExpandWithoutDollar(rep, pat, s[..i], s[i + |pat|..]);
  }

  // ---------------------------------------------------------------------------
  // String(value)
  // ---------------------------------------------------------------------------

  /** The value of a path parameter: a string or a (here, integral) number. */
  datatype ParamValue = Text(text: string) | Number(number: int)

  /** One entry of the `params` record. */
  datatype Param = Param(key: string, value: ParamValue)

  function DigitChar(d: int): char
    requires 0 <= d <= 9
  {
    "0123456789"[d]
  }

  predicate IsDigit(c: char) {
    '0' as int <= c as int <= '9' as int
  }

  /** The decimal numeral of a natural number, without leading zeros. */
  function NatToDecimal(n: nat): (s: string)
    ensures |s| >= 1 && forall k :: 0 <= k < |s| ==> IsDigit(s[k])
    ensures n > 0 ==> s[0] != '0'
    ensures n == 0 ==> s == "0"
    decreases n
  {
    if n < 10 then [DigitChar(n)] else NatToDecimal(n / 10) + [DigitChar(n % 10)]
  }

  /** The natural number a string of decimal digits denotes. */
  function DecimalValue(s: string): nat
    requires forall k :: 0 <= k < |s| ==> IsDigit(s[k])
    decreases |s|
  {
    if s == [] then 0
    else
      assert IsDigit(s[|s| - 1]);
      10 * DecimalValue(s[..|s| - 1]) + (s[|s| - 1] as int - '0' as int)
  }

  /** Reading back the numeral of `n` gives `n`. */
  lemma {:induction false} DecimalRoundTrip(n: nat)
    ensures DecimalValue(NatToDecimal(n)) == n
    decreases n
  {
    if n >= 10 {
      DecimalRoundTrip(n / 10);
      var s := NatToDecimal(n);
      assert s[..|s| - 1] == NatToDecimal(n / 10);
    }
  }

  /** `String(value)`. */
  function JsString(v: ParamValue): (s: string)
    ensures v.Number? ==> '$' !in s
  {
    match v
    case Text(t) => t
    case Number(n) => if n < 0 then "-" + NatToDecimal(-n) else NatToDecimal(n)
  }

  /** Every numeral reads back as its number, a '-' in front of a negative one. */
  lemma NumberStringRoundTrip(n: int)
    ensures n >= 0 ==> DecimalValue(JsString(Number(n))) == n
    ensures n < 0 ==> JsString(Number(n))[0] == '-' && DecimalValue(JsString(Number(n))[1..]) == -n
  {
    if n < 0 {
      var d := NatToDecimal(-n);
      var s := JsString(Number(n));
      assert s == "-" + d;
      assert s[1..] == d;
      DecimalRoundTrip(-n);
    } else {
      assert JsString(Number(n)) == NatToDecimal(n);
      DecimalRoundTrip(n);
    }
  }

  // ---------------------------------------------------------------------------
  // buildUrl
  // ---------------------------------------------------------------------------

  /** The placeholder a key stands for in a path. */
  function Placeholder(key: string): (p: string)
    ensures |p| == |key| + 1 && p[0] == ':' && p[1..] == key
  {
    ":" + key
  }

  /** One step of `buildUrl`: replace the first `:key` when there is one. */
  function ApplyParam(url: string, p: Param): (r: string)
    ensures !Includes(url, Placeholder(p.key)) ==> r == url
    ensures Includes(url, Placeholder(p.key)) ==>
      var i := IndexOf(url, Placeholder(p.key)).value;
      var tail := |url| - i - |Placeholder(p.key)|;
      |r| >= i + tail && r[..i] == url[..i] && r[|r| - tail..] == url[i + |Placeholder(p.key)|..]
  {
    if Includes(url, Placeholder(p.key)) then Replace(url, Placeholder(p.key), JsString(p.value)) else url
  }

  /** The path after the entries have been substituted one after another, in entry order. */
  function Substituted(path: string, params: seq<Param>): string
    decreases |params|
  {
    if params == [] then path
    else ApplyParam(Substituted(path, params[..|params| - 1]), params[|params| - 1])
  }

  /** `buildUrl(path, params)`: `params` lists the record's entries in `Object.entries` order. */
  method BuildUrl(path: string, params: Option<seq<Param>>) returns (url: string)
    ensures url == Substituted(path, if params.Some? then params.value else [])
    ensures params.None? || params == Some([]) ==> url == path
  {
    url := path;
    if params.Some? {
      var entries := params.value;
      var k := 0;
      while k < |entries|
        invariant 0 <= k <= |entries|
        invariant url == Substituted(path, entries[..k])
      {
        assert entries[..k + 1][..k] == entries[..k];
        var key, value := entries[k].key, entries[k].value;
        if Includes(url, ":" + key) {
          url := Replace(url, ":" + key, JsString(value));
        }
        k := k + 1;
      }
      assert entries[..k] == entries;
    }
  }

  /** A key whose placeholder does not occur leaves the url as it is. */
  lemma AbsentKeyUnchanged(url: string, p: Param)
    requires forall j :: !OccursAt(url, Placeholder(p.key), j)
    ensures ApplyParam(url, p) == url
  {
  }

  /** A key whose placeholder occurs gets its first occurrence replaced by a number's numeral. */
  lemma NumberReplacesFirstPlaceholder(url: string, key: string, n: int, i: nat)
    requires OccursAt(url, Placeholder(key), i)
    requires forall j :: 0 <= j < i ==> !OccursAt(url, Placeholder(key), j)
    ensures ApplyParam(url, Param(key, Number(n))) ==
      url[..i] + JsString(Number(n)) + url[i + |Placeholder(key)|..]
  {
    ReplaceFirstOccurrence(url, Placeholder(key), JsString(Number(n)), i);
  }

  /** A number takes the place of the placeholder where `indexOf` finds it. */
  lemma NumberReplacesPlaceholderAt(url: string, key: string, n: int)
    requires IndexOf(url, Placeholder(key)).Some?
    ensures var i := IndexOf(url, Placeholder(key)).value;
      ApplyParam(url, Param(key, Number(n))) == url[..i] + JsString(Number(n)) + url[i + |key| + 1..]
  {
    var i := IndexOf(url, Placeholder(key)).value;
    ReplaceFirstOccurrence(url, Placeholder(key), JsString(Number(n)), i);
  }

  /** Substitution by a concatenation of entry lists is substitution by one, then by the other. */
  lemma {:induction false} SubstitutedAppend(path: string, first: seq<Param>, second: seq<Param>)
    ensures Substituted(path, first + second) == Substituted(Substituted(path, first), second)
    decreases |second|
  {
    if second == [] {
      assert first + second == first;
    } else {
      var init := second[..|second| - 1];
      SubstitutedAppend(path, first, init);
      assert (first + second)[..|first + second| - 1] == first + init;
    }
  }

  /** No occurrence can start before the first appearance of the pattern's first character. */
  lemma NoOccurrenceBefore(s: string, pat: string, i: nat)
    requires |pat| >= 1 && i <= |s| && pat[0] !in s[..i]
    ensures forall j :: 0 <= j < i ==> !OccursAt(s, pat, j)
  {
  }

  /** Substituting a single entry is one step of the loop. */
  lemma SubstitutedSingle(path: string, p: Param)
    ensures Substituted(path, [p]) == ApplyParam(path, p)
  {
    assert [p][..0] == [];
  }

  lemma ExampleReviewUrlIndex()
    ensures IndexOf("/api/questions/:id/review", ":id") == Some(15)
  {
    var path := "/api/questions/:id/review";
    assert path[..15] == "/api/questions/";
    assert ':' !in "/api/questions/";
    NoOccurrenceBefore(path, ":id", 15);
    assert path[15..18] == ":id";
    IndexOfFirst(path, ":id", 15);
  }

  /** The pieces the review-route example is spliced from. */
  lemma ExampleReviewUrlPieces(path: string)
    requires path == "/api/questions/:id/review"
    ensures path[..15] + "7" + path[18..] == "/api/questions/7/review"
  {
  }

  /** Substituting id 7 into any path whose first `:id` is at index 15. */
  lemma ReviewIdAt15(path: string)
    requires IndexOf(path, ":id") == Some(15)
    ensures ApplyParam(path, Param("id", Number(7))) == path[..15] + "7" + path[18..]
  {
    assert Placeholder("id") == ":id";
    NumberReplacesPlaceholderAt(path, "id", 7);
    assert JsString(Number(7)) == "7";
  }

  /** The one substitution step of the review-route example. */
  lemma ExampleReviewUrlStep()
    ensures ApplyParam("/api/questions/:id/review", Param("id", Number(7))) == "/api/questions/7/review"
  {
    var path := "/api/questions/:id/review";
    ExampleReviewUrlIndex();
    ReviewIdAt15(path);
    ExampleReviewUrlPieces(path);
  }

  /** The review route with id 7. */
  lemma ExampleReviewUrl()
    ensures Substituted("/api/questions/:id/review", [Param("id", Number(7))]) == "/api/questions/7/review"
  {
    ExampleReviewUrlStep();
    SubstitutedSingle("/api/questions/:id/review", Param("id", Number(7)));
  }

  /** A string value `$&` puts the placeholder itself back, as JavaScript's `replace` does. */
  lemma DollarAmpersandKeepsUrl(url: string, key: string)
    ensures ApplyParam(url, Param(key, Text("$&"))) == url
  {
    var pat := Placeholder(key);
    if Includes(url, pat) {
      var i := IndexOf(url, pat).value;
      assert Expand("$&", pat, url[..i], url[i + |pat|..]) == pat;
      assert url[..i] + pat + url[i + |pat|..] == url;
    }
  }
}
