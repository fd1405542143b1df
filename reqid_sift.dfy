/**
 * `_siftReqId`: the ordered cascade of five patterns that pulls a numeric request ID
 * out of a usenet release name.
 *
 * Each pattern is written as a matcher at one start position, with PCRE's greedy
 * quantifiers, and is paired with a "shape" predicate: the regular expression read
 * as the set of ways a substring starting there can be split into its parts. The lemmas
 * show that the matcher returns exactly the capture such a split yields (unique for the
 * anchored-by-context patterns, the longest one for `\d{4,6}` followed by nothing).
 * `Search` is PCRE's scan for the leftmost start position.
 */
module ReqIdSift {
  import opened Wrappers
  import opened Text
  import opened Status

  /** A match: where it starts and what group 1 captured. */
  datatype Hit = Hit(start: nat, capture: DigitString)

  /** A pattern tried at one start position: the capture, or None when it does not match there. */
  type Matcher = (string, nat) -> Option<DigitString>

  /** PCRE's unanchored search: the match at the leftmost start position where the pattern matches. */
  function Search(at: Matcher, s: string, from: nat): (r: Option<Hit>)
    requires from <= |s|
    ensures r.Some? ==> from <= r.value.start <= |s| && at(s, r.value.start) == Some(r.value.capture)
    ensures r.Some? ==> forall j | from <= j < r.value.start :: at(s, j) == None
    ensures r.None? ==> forall j | from <= j <= |s| :: at(s, j) == None
    decreases |s| - from
  {
    match at(s, from)
    case Some(c) => Some(Hit(from, c))
    case None => if from == |s| then None else Search(at, s, from + 1)
  }

  /** Conversely, a match at `j` with no match before it is the one the search returns. */
  lemma SearchFinds(at: Matcher, s: string, from: nat, j: nat, c: DigitString)
    requires from <= j <= |s|
    requires at(s, j) == Some(c)
    requires forall k | from <= k < j :: at(s, k) == None
    ensures Search(at, s, from) == Some(Hit(j, c))
  {
    var r := Search(at, s, from);
    if r.Some? {
      assert !(r.value.start < j);
      assert !(r.value.start > j);
    }
  }

  /** The capture of the leftmost match, if any. */
  function Leftmost(at: Matcher, s: string): Option<DigitString> {
    match Search(at, s, 0)
    case Some(h) => Some(h.capture)
    case None => None
  }

  // ---------------------------------------------------------------------------
  // Rule 1: /\[ ?#?scnzb@?efnet ?\]\[(?P<reqid>\d+)\]/

  function ScnzbTagAt(s: string, i: nat): Option<DigitString> {
    if !CharAt(s, i, '[') then None
    else
      var a := Opt(s, i + 1, ' ');
      var b := Opt(s, a, '#');
      if !LitAt(s, b, "scnzb") then None
      else
        var c := Opt(s, b + 5, '@');
        if !LitAt(s, c, "efnet") then None
        else
          var d := Opt(s, c + 5, ' ');
          if !LitAt(s, d, "][") then None
          else
            var n := Run(IsDigit, s, d + 2);
            if n > 0 && CharAt(s, d + 2 + n, ']') then Some(s[d + 2..d + 2 + n]) else None
  }

  /**
   * The pattern of rule 1 matches `s` from `i` with the optional space, `#`, `@` and space
   * ending at `a`, `b`, `c`, `d` respectively, and the ID digits occupying `s[d+2..q]`.
   */
  ghost predicate ScnzbTagShape(s: string, i: nat, a: nat, b: nat, c: nat, d: nat, q: nat) {
    && CharAt(s, i, '[')
    && (a == i + 1 || (a == i + 2 && CharAt(s, i + 1, ' ')))
    && (b == a || (b == a + 1 && CharAt(s, a, '#')))
    && LitAt(s, b, "scnzb")
    && (c == b + 5 || (c == b + 6 && CharAt(s, b + 5, '@')))
    && LitAt(s, c, "efnet")
    && (d == c + 5 || (d == c + 6 && CharAt(s, c + 5, ' ')))
    && LitAt(s, d, "][")
    && d + 2 < q < |s|
    && AllIn(IsDigit, s, d + 2, q)
    && s[q] == ']'
  }

  lemma ScnzbTagSound(s: string, i: nat)
    requires ScnzbTagAt(s, i).Some?
    ensures exists a: nat, b: nat, c: nat, d: nat, q: nat :: ScnzbTagShape(s, i, a, b, c, d, q) && ScnzbTagAt(s, i).value == s[d + 2..q]
  {
    var a := Opt(s, i + 1, ' ');
    var b := Opt(s, a, '#');
    var c := Opt(s, b + 5, '@');
    var d := Opt(s, c + 5, ' ');
    var q := d + 2 + Run(IsDigit, s, d + 2);
    assert ScnzbTagShape(s, i, a, b, c, d, q);
  }

  lemma ScnzbTagComplete(s: string, i: nat, a: nat, b: nat, c: nat, d: nat, q: nat)
    requires ScnzbTagShape(s, i, a, b, c, d, q)
    ensures ScnzbTagAt(s, i) == Some(s[d + 2..q])
  {
    ScnzbTagPositions(s, i, a, b, c, d, q);
  }

  /** The greedy optional characters of rule 1 land on the positions the shape names. */
  lemma ScnzbTagPositions(s: string, i: nat, a: nat, b: nat, c: nat, d: nat, q: nat)
    requires ScnzbTagShape(s, i, a, b, c, d, q)
    ensures Opt(s, i + 1, ' ') == a && Opt(s, a, '#') == b
    ensures Opt(s, b + 5, '@') == c && Opt(s, c + 5, ' ') == d
    ensures Run(IsDigit, s, d + 2) == q - (d + 2)
  {
    LitAtHead(s, b, "scnzb");
    LitAtHead(s, c, "efnet");
    LitAtHead(s, d, "][");
    RunUnique(IsDigit, s, d + 2, q);
  }

  // ---------------------------------------------------------------------------
  // Rule 2: /\[\s*(\d+)\s*\]/

  function BracketAt(s: string, i: nat): Option<DigitString> {
    if !CharAt(s, i, '[') then None
    else
      var p := i + 1 + Run(IsSpace, s, i + 1);
      var n := Run(IsDigit, s, p);
      var e := p + n + Run(IsSpace, s, p + n);
      if n > 0 && CharAt(s, e, ']') then Some(s[p..p + n]) else None
  }

  /** `[`, spaces up to `p`, digits `s[p..q]`, spaces up to `e`, `]` at `e`. */
  ghost predicate BracketShape(s: string, i: nat, p: nat, q: nat, e: nat) {
    && CharAt(s, i, '[')
    && i + 1 <= p < q <= e < |s|
    && AllIn(IsSpace, s, i + 1, p)
    && AllIn(IsDigit, s, p, q)
    && AllIn(IsSpace, s, q, e)
    && s[e] == ']'
  }

  lemma BracketSound(s: string, i: nat)
    requires BracketAt(s, i).Some?
    ensures exists p: nat, q: nat, e: nat :: BracketShape(s, i, p, q, e) && BracketAt(s, i).value == s[p..q]
  {
    var p := i + 1 + Run(IsSpace, s, i + 1);
    var q := p + Run(IsDigit, s, p);
    var e := q + Run(IsSpace, s, q);
    assert BracketShape(s, i, p, q, e);
  }

  lemma BracketComplete(s: string, i: nat, p: nat, q: nat, e: nat)
    requires BracketShape(s, i, p, q, e)
    ensures BracketAt(s, i) == Some(s[p..q])
  {
    BracketRuns(s, i, p, q, e);
  }

  /** The three greedy runs of rule 2 end where the shape says. */
  lemma BracketRuns(s: string, i: nat, p: nat, q: nat, e: nat)
    requires BracketShape(s, i, p, q, e)
    ensures Run(IsSpace, s, i + 1) == p - (i + 1) && Run(IsDigit, s, p) == q - p && Run(IsSpace, s, q) == e - q
  {
    RunUnique(IsSpace, s, i + 1, p);
    RunUnique(IsDigit, s, p, q);
    RunUnique(IsSpace, s, q, e);
  }

  // ---------------------------------------------------------------------------
  // Rule 3: /^REQ\s*(\d{4,6})/i

  function ReqPrefix(s: string): Option<DigitString> {
    if !LitAtCi(s, 0, "req") then None
    else
      var p := 3 + Run(IsSpace, s, 3);
      var n := Run(IsDigit, s, p);
      if n >= 4 then Some(s[p..p + (if n <= 6 then n else 6)]) else None
  }

  /** `REQ` in any case at the start, spaces up to `p`, then 4 to 6 digits `s[p..q]`. */
  ghost predicate ReqShape(s: string, p: nat, q: nat) {
    && LitAtCi(s, 0, "req")
    && 3 <= p && p + 4 <= q <= p + 6 && q <= |s|
    && AllIn(IsSpace, s, 3, p)
    && AllIn(IsDigit, s, p, q)
  }

  /** The capture is a split of the pattern, and the longest one: `\d{4,6}` is greedy. */
  lemma ReqSound(s: string)
    requires ReqPrefix(s).Some?
    ensures exists p: nat, q: nat :: ReqShape(s, p, q) && ReqPrefix(s).value == s[p..q]
                           && forall q': nat :: ReqShape(s, p, q') ==> q' <= q
  {
    var p := 3 + Run(IsSpace, s, 3);
    var n := Run(IsDigit, s, p);
    var q := p + (if n <= 6 then n else 6);
    assert ReqShape(s, p, q);
  }

  lemma ReqComplete(s: string, p: nat, q: nat)
    requires ReqShape(s, p, q)
    ensures ReqPrefix(s).Some? && ReqShape(s, p, p + |ReqPrefix(s).value|) && p + |ReqPrefix(s).value| >= q
  {
    RunUnique(IsSpace, s, 3, p);
  }

  // ---------------------------------------------------------------------------
  // Rule 4: /^(\d{4,6})-\d{1}\[/

  function DashDigitPrefix(s: string): Option<DigitString> {
    var n := Run(IsDigit, s, 0);
    if 4 <= n <= 6 && CharAt(s, n, '-') && n + 1 < |s| && IsDigit(s[n + 1]) && CharAt(s, n + 2, '[')
    then Some(s[..n]) else None
  }

  /** 4 to 6 digits `s[..q]` at the start, `-`, one digit, `[`. */
  ghost predicate DashDigitShape(s: string, q: nat) {
    && 4 <= q <= 6 && q + 2 < |s|
    && AllIn(IsDigit, s, 0, q)
    && s[q] == '-' && IsDigit(s[q + 1]) && s[q + 2] == '['
  }

  lemma DashDigitIff(s: string, cap: DigitString)
    ensures DashDigitPrefix(s) == Some(cap) <==> exists q: nat :: DashDigitShape(s, q) && cap == s[..q]
  {
    if exists q: nat :: DashDigitShape(s, q) && cap == s[..q] {
      var q: nat :| DashDigitShape(s, q) && cap == s[..q];
      RunUnique(IsDigit, s, 0, q);
    }
    if DashDigitPrefix(s) == Some(cap) {
      assert DashDigitShape(s, Run(IsDigit, s, 0));
    }
  }

  // ---------------------------------------------------------------------------
  // Rule 5: /(\d{4,6}) -/

  function DigitsDashAt(s: string, i: nat): Option<DigitString> {
    if i > |s| then None
    else
      var n := Run(IsDigit, s, i);
      if 4 <= n <= 6 && CharAt(s, i + n, ' ') && CharAt(s, i + n + 1, '-') then Some(s[i..i + n]) else None
  }

  /** 4 to 6 digits `s[i..q]`, then a space and a dash. */
  ghost predicate DigitsDashShape(s: string, i: nat, q: nat) {
    && i + 4 <= q <= i + 6 && q + 2 <= |s|
    && AllIn(IsDigit, s, i, q)
    && s[q] == ' ' && s[q + 1] == '-'
  }

  lemma DigitsDashIff(s: string, i: nat, cap: DigitString)
    ensures DigitsDashAt(s, i) == Some(cap) <==> exists q: nat :: DigitsDashShape(s, i, q) && cap == s[i..q]
  {
    if exists q: nat :: DigitsDashShape(s, i, q) && cap == s[i..q] {
      var q: nat :| DigitsDashShape(s, i, q) && cap == s[i..q];
      RunUnique(IsDigit, s, i, q);
    }
    if DigitsDashAt(s, i) == Some(cap) {
      assert DigitsDashShape(s, i, i + Run(IsDigit, s, i));
    }
  }

  // ---------------------------------------------------------------------------
  // The cascade

  /** A rule maps a release name to the capture of its first match. */
  type Rule = string -> Option<DigitString>

  function ScnzbTag(s: string): Option<DigitString> { Leftmost(ScnzbTagAt, s) }
  function Bracket(s: string): Option<DigitString> { Leftmost(BracketAt, s) }
  function DigitsDash(s: string): Option<DigitString> { Leftmost(DigitsDashAt, s) }

  /** The rules in the order `_siftReqId`'s `switch (true)` tries them. */
  function SiftRules(): seq<Rule> {
    [ScnzbTag, Bracket, ReqPrefix, DashDigitPrefix, DigitsDash]
  }

  /** What the body reached from a matching case returns: the ID if positive, else the sentinel. */
  function Decide(cap: DigitString): (id: int)
    ensures id == REQID_ZERO <==> forall k | 0 <= k < |cap| :: cap[k] == '0'
    ensures id != REQID_ZERO ==> id > 0 && id == DecimalValue(cap)
  {
    if DecimalValue(cap) > 0 then DecimalValue(cap) else REQID_ZERO
  }

  /**
   * The first rule that matches decides: a positive capture is the ID, any other capture
   * is the sentinel without trying later rules; no match at all is the sentinel.
   */
  function Cascade(rules: seq<Rule>, s: string): (id: int)
    ensures id > 0 || id == REQID_ZERO
    ensures id > 0 ==> exists k | 0 <= k < |rules| :: rules[k](s).Some? && DecimalValue(rules[k](s).value) == id
  {
    if rules == [] then REQID_ZERO
    else
      match rules[0](s)
      case Some(cap) => Decide(cap)
      case None =>
        var id := Cascade(rules[1..], s);
        assert id > 0 ==> exists k | 0 <= k < |rules[1..]| :: rules[1..][k](s).Some? && DecimalValue(rules[1..][k](s).value) == id;
        assert forall k | 0 <= k < |rules[1..]| :: rules[1..][k] == rules[k + 1];
        id
  }

  /** `_siftReqId`. */
  function SiftReqId(name: string): (id: int)
    ensures id > 0 || id == REQID_ZERO
  {
    Cascade(SiftRules(), name)
  }

  /** The cascade is decided by the first rule that matches, whatever the later rules say. */
  lemma {:induction false} CascadeFirstMatch(rules: seq<Rule>, s: string, k: nat)
    requires k < |rules|
    requires forall j | 0 <= j < k :: rules[j](s).None?
    requires rules[k](s).Some?
    ensures Cascade(rules, s) == Decide(rules[k](s).value)
    decreases k
  {
    if k > 0 {
      assert rules[0](s).None?;
      assert forall j | 0 <= j < k - 1 :: rules[1..][j] == rules[j + 1];
      CascadeFirstMatch(rules[1..], s, k - 1);
    }
  }

  /** When no rule matches, the result is the sentinel. */
  lemma {:induction false} CascadeNoMatch(rules: seq<Rule>, s: string)
    requires forall j | 0 <= j < |rules| :: rules[j](s).None?
    ensures Cascade(rules, s) == REQID_ZERO
    decreases |rules|
  {
    if rules != [] {
      assert rules[0](s).None?;
      assert forall j | 0 <= j < |rules| - 1 :: rules[1..][j] == rules[j + 1];
      CascadeNoMatch(rules[1..], s);
    }
  }

  /** The scnzb-tag rule is checked first and decides alone when it matches, even with ID 0. */
  lemma SiftScnzbFirst(name: string)
    requires ScnzbTag(name).Some?
    ensures SiftReqId(name) == Decide(ScnzbTag(name).value)
  {
    CascadeFirstMatch(SiftRules(), name, 0);
  }

  /** Otherwise the four stacked rules are tried in order; the first that matches decides. */
  lemma SiftStacked(name: string, k: nat)
    requires ScnzbTag(name).None?
    requires 1 <= k < 5
    requires forall j | 1 <= j < k :: SiftRules()[j](name).None?
    requires SiftRules()[k](name).Some?
    ensures SiftReqId(name) == Decide(SiftRules()[k](name).value)
  {
    CascadeFirstMatch(SiftRules(), name, k);
  }

  /** No rule matching gives the sentinel `REQID_ZERO`. */
  lemma SiftNoMatch(name: string)
    requires forall j | 0 <= j < 5 :: SiftRules()[j](name).None?
    ensures SiftReqId(name) == REQID_ZERO
  {
    CascadeNoMatch(SiftRules(), name);
  }
}
