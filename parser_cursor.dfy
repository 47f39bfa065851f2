// The cursor operations of the parser runtime that the generated
// recognizer calls (`nextTokenIs`, `consumeToken`, `consumeTokens`,
// `parseTokens`). The builder is an abstract cursor: a position `p` into the
// sequence of significant token kinds, where whitespace and comment tokens
// have already been skipped, as the platform's builder does before the
// parser sees a token. A rule that fails leaves the cursor where it started
// (its marker rolls back), so a rule is a function from a position to
// `Option<new position>`.
module ParserCursor {
  import opened Wrappers
  import opened Tokens

  /** Kinds the builder skips: whitespace, and the comment token. */
  predicate Hidden(k: Kind)
  {
    k == WHITE_SPACE || k == COMMENT
  }

  /** The token kinds the parser sees, in lexer order. */
  function Significant(ts: seq<Kind>): (r: seq<Kind>)
    ensures |r| <= |ts|
    ensures forall i :: 0 <= i < |r| ==> !Hidden(r[i])
    ensures forall k :: k in r <==> k in ts && !Hidden(k)
  {
    if ts == [] then []
    else if Hidden(ts[0]) then Significant(ts[1..])
    else [ts[0]] + Significant(ts[1..])
  }

  /** `nextTokenIs`: the token at the cursor is one of `ks`; end of input is no token. */
  predicate NextTokenIs(t: seq<Kind>, p: nat, ks: set<Kind>)
  {
    p < |t| && t[p] in ks
  }

  /** `consumeToken`: advance over one token of kind `k`, or fail without moving. */
  function Token(t: seq<Kind>, p: nat, k: Kind): (r: Option<nat>)
    requires p <= |t|
    ensures r.Some? <==> p < |t| && t[p] == k
    ensures r.Some? ==> r.value == p + 1
  {
    if p < |t| && t[p] == k then Some(p + 1) else None
  }

  /** An ordered choice among single tokens: advance over one token whose kind is in `ks`. */
  function TokenIn(t: seq<Kind>, p: nat, ks: set<Kind>): (r: Option<nat>)
    requires p <= |t|
    ensures r.Some? <==> NextTokenIs(t, p, ks)
    ensures r.Some? ==> r.value == p + 1
  {
    if p < |t| && t[p] in ks then Some(p + 1) else None
  }

  /**
   * The cursor after an item that is attempted and may fail without moving
   * it: the items after a pin, and an optional item.
   */
  function Tried(t: seq<Kind>, q: nat, r: Option<nat>): (n: nat)
    requires q <= |t| && (r.Some? ==> q <= r.value <= |t|)
    ensures q <= n <= |t|
  {
    if r.Some? then r.value else q
  }

  /**
   * The result of `consumeTokens`: whether it reported success, and where it
   * left the cursor, which need not be the start when it failed part-way.
   */
  datatype Run = Run(ok: bool, pos: nat)

  /** The length of the longest prefix of `ks` found at the cursor, token by token. */
  function Matched(t: seq<Kind>, p: nat, ks: seq<Kind>): (n: nat)
    requires p <= |t|
    ensures n <= |ks| && p + n <= |t|
    ensures t[p..p + n] == ks[..n]
    ensures n < |ks| ==> p + n == |t| || t[p + n] != ks[n]
    decreases |ks|
  {
    if ks == [] || p == |t| || t[p] != ks[0] then 0
    else 1 + Matched(t, p + 1, ks[1..])
  }

  /** Each kind of `ks` in turn is consumed if it is at the cursor and skipped otherwise. */
  function Attempt(t: seq<Kind>, p: nat, ks: seq<Kind>): (q: nat)
    requires p <= |t|
    ensures p <= q <= |t| && q <= p + |ks|
    decreases |ks|
  {
    if ks == [] then p
    else Attempt(t, if p < |t| && t[p] == ks[0] then p + 1 else p, ks[1..])
  }

  /**
   * `consumeTokens(pin, ks)`. Without a pin (0, or a pin past the end) it
   * stops at the first kind that is not at the cursor and fails there,
   * without moving back. With a pin, once the first `pin` kinds are consumed
   * the run has succeeded and each remaining kind is attempted in turn.
   */
  function ConsumeTokens(t: seq<Kind>, p: nat, pin: nat, ks: seq<Kind>): (r: Run)
    requires p <= |t|
    ensures p <= r.pos <= |t|
    ensures pin == 0 || pin >= |ks| ==>
      (r.ok <==> p + |ks| <= |t| && t[p..p + |ks|] == ks)
    ensures 0 < pin < |ks| ==>
      (r.ok <==> p + pin <= |t| && t[p..p + pin] == ks[..pin])
    ensures r.ok && pin < |ks| ==> p + pin <= r.pos
    ensures r.ok && (pin == 0 || pin >= |ks|) ==> r.pos == p + |ks|
  {
    if pin == 0 || pin >= |ks| then
      var n := Matched(t, p, ks);
      assert n == |ks| ==> ks[..n] == ks;
      Run(n == |ks|, p + n)
    else
      var n := Matched(t, p, ks[..pin]);
      assert n == pin ==> ks[..pin][..n] == ks[..pin];
      if n < pin then Run(false, p + n)
      else Run(true, Attempt(t, p + pin, ks[pin..]))
  }

  /** `parseTokens`: `consumeTokens` that moves the cursor back when it fails. */
  function ParseTokens(t: seq<Kind>, p: nat, pin: nat, ks: seq<Kind>): (r: Option<nat>)
    requires p <= |t|
    ensures r.Some? ==> p <= r.value <= |t|
    ensures pin == 0 ==> (r.Some? <==> p + |ks| <= |t| && t[p..p + |ks|] == ks)
    ensures pin == 0 && r.Some? ==> r.value == p + |ks|
  {
    var run := ConsumeTokens(t, p, pin, ks);
    if run.ok then Some(run.pos) else None
  }
}
