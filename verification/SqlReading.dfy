/**
 SQL condition text as tokens, and how a database reads it: OR binds weakest,
 then AND, then NOT; parentheses group; truth is three-valued.
 */
module SqlReading {

  /** A bound value, by identity. */
  type Val = int

  /** Parentheses that group are tokens of their own; those of a list or a call
      belong to the words around them. `Bind(n)` is what the dialect prints for
      the n-th bound value, `Lit(v)` the value itself. */
  datatype Tok =
    | Open | Close | And | Or | Not
    | Word(w: string)
    | Mark
    | Bind(n: nat)
    | Lit(v: Val)

  datatype Truth = True | False | Unknown

  function Not3(a: Truth): Truth {
    match a case True => False case False => True case Unknown => Unknown
  }

  function And3(a: Truth, b: Truth): Truth {
    if a.False? || b.False? then False else if a.True? && b.True? then True else Unknown
  }

  function Or3(a: Truth, b: Truth): Truth {
    if a.True? || b.True? then True else if a.False? && b.False? then False else Unknown
  }

  // ---------- nesting ----------

  datatype Depth = At(d: nat) | Broken

  /** The depth after one more token. */
  function Next(t: Tok, d: nat): nat {
    if t == Open then d + 1 else if t == Close && d > 0 then d - 1 else d
  }

  function Nest(ts: seq<Tok>, d: nat): Depth {
    if ts == [] then At(d)
    else if ts[0] == Close && d == 0 then Broken
    else Nest(ts[1..], Next(ts[0], d))
  }

  predicate Balanced(ts: seq<Tok>) { Nest(ts, 0) == At(0) }

  /** Position of the first `op` outside all parentheses, or -1. */
  function FirstTop(ts: seq<Tok>, op: Tok, d: nat): (k: int)
    ensures -1 <= k < |ts|
  {
    if ts == [] then -1
    else if d == 0 && ts[0] == op then 0
    else
      var k := FirstTop(ts[1..], op, Next(ts[0], d));
      if k == -1 then -1 else k + 1
  }

  // ---------- reading ----------

  /** `( ... )` with the two parentheses belonging to each other. */
  predicate IsGroup(ts: seq<Tok>) {
    |ts| >= 2 && ts[0] == Open && ts[|ts| - 1] == Close && Balanced(ts[1..|ts| - 1])
  }

  /** The truth of a condition text for one row; `atom` gives the truth of each
      comparison in it. */
  function ReadOr(ts: seq<Tok>, atom: seq<Tok> -> Truth): Truth
    decreases |ts|, 2
  {
    var k := FirstTop(ts, Or, 0);
    if k == -1 then ReadAnd(ts, atom)
    else Or3(ReadAnd(ts[..k], atom), ReadOr(ts[k + 1..], atom))
  }

  function ReadAnd(ts: seq<Tok>, atom: seq<Tok> -> Truth): Truth
    decreases |ts|, 1
  {
    var k := FirstTop(ts, And, 0);
    if k == -1 then ReadFactor(ts, atom)
    else And3(ReadFactor(ts[..k], atom), ReadAnd(ts[k + 1..], atom))
  }

  function ReadFactor(ts: seq<Tok>, atom: seq<Tok> -> Truth): Truth
    decreases |ts|, 0
  {
    if ts != [] && ts[0] == Not then Not3(ReadFactor(ts[1..], atom))
    else if IsGroup(ts) then ReadOr(ts[1..|ts| - 1], atom)
    else atom(ts)
  }

  // ---------- facts about nesting ----------

  lemma {:induction false} NestAppend(a: seq<Tok>, b: seq<Tok>, d: nat)
    ensures Nest(a + b, d) == match Nest(a, d) case At(e) => Nest(b, e) case Broken => Broken
  {
    if a == [] {
      assert a + b == b;
    } else {
      assert (a + b)[1..] == a[1..] + b;
      NestAppend(a[1..], b, Next(a[0], d));
    }
  }

  /** Raising the starting depth raises the final one. */
  lemma {:induction false} NestLift(a: seq<Tok>, d: nat, up: nat)
    requires Nest(a, d).At?
    ensures Nest(a, d + up) == At(Nest(a, d).d + up)
  {
    if a != [] {
      NestLift(a[1..], Next(a[0], d), up);
    }
  }

  lemma BalancedAppend(a: seq<Tok>, b: seq<Tok>)
    requires Balanced(a) && Balanced(b)
    ensures Balanced(a + b)
  {
    NestAppend(a, b, 0);
  }

  lemma BalancedSingle(t: Tok)
    requires t != Open && t != Close
    ensures Balanced([t])
  {
    assert [t][1..] == [];
  }

  lemma BalancedGroup(a: seq<Tok>)
    requires Balanced(a)
    ensures Balanced([Open] + a + [Close])
    ensures IsGroup([Open] + a + [Close])
  {
    var g := [Open] + a + [Close];
    assert g[1..] == a + [Close];
    NestLift(a, 0, 1);
    NestAppend(a, [Close], 1);
    assert [Close][1..] == [];
    assert g[1..|g| - 1] == a;
  }

  function After(k: int, n: nat): int { if k == -1 then -1 else n + k }

  /** In `a ++ b` with `a` balanced from depth d, a search that finds nothing in
      `a` goes on in `b`. */
  lemma FirstTopAppend(a: seq<Tok>, b: seq<Tok>, op: Tok, d: nat)
    requires op != Open && op != Close && Nest(a, d).At?
    ensures FirstTop(a, op, d) != -1 ==> FirstTop(a + b, op, d) == FirstTop(a, op, d)
    ensures FirstTop(a, op, d) == -1 ==> FirstTop(a + b, op, d) == After(FirstTop(b, op, Nest(a, d).d), |a|)
  {
    if FirstTop(a, op, d) != -1 {
      FoundInFirst(a, b, op, d);
    } else {
      FoundInSecond(a, b, op, d, Nest(a, d).d, FirstTop(b, op, Nest(a, d).d));
    }
  }

  lemma {:induction false} FoundInFirst(a: seq<Tok>, b: seq<Tok>, op: Tok, d: nat)
    requires op != Open && op != Close && Nest(a, d).At? && FirstTop(a, op, d) != -1
    ensures FirstTop(a + b, op, d) == FirstTop(a, op, d)
  {
    var ab := a + b;
    assert ab[1..] == a[1..] + b && ab[0] == a[0];
    if d == 0 && a[0] == op {
    } else {
      FoundInFirst(a[1..], b, op, Next(a[0], d));
    }
  }

  lemma {:induction false} FoundInSecond(a: seq<Tok>, b: seq<Tok>, op: Tok, d: nat, e: nat, k: int)
    requires op != Open && op != Close && Nest(a, d) == At(e) && FirstTop(a, op, d) == -1
    requires k == FirstTop(b, op, e)
    ensures FirstTop(a + b, op, d) == After(k, |a|)
  {
    var ab := a + b;
    if a == [] {
      assert ab == b;
    } else {
      assert ab[1..] == a[1..] + b && ab[0] == a[0];
      FoundInSecond(a[1..], b, op, Next(a[0], d), e, k);
    }
  }

  lemma {:induction false} NothingDeep(a: seq<Tok>, op: Tok, d: nat)
    requires op != Open && op != Close && d > 0 && Nest(a, d - 1).At?
    ensures FirstTop(a, op, d) == -1
  {
    if a != [] {
      var below := Next(a[0], d - 1);
      assert Next(a[0], d) == below + 1;
      NothingDeep(a[1..], op, below + 1);
    }
  }

  /** No operator of a group is visible from outside it. */
  lemma GroupHides(a: seq<Tok>, op: Tok)
    requires Balanced(a) && op != Open && op != Close
    ensures FirstTop([Open] + a + [Close], op, 0) == -1
  {
    var g := [Open] + a + [Close];
    assert g[1..] == a + [Close];
    NestLift(a, 0, 1);
    NothingDeep(a, op, 1);
    FirstTopAppend(a, [Close], op, 1);
    assert [Close][1..] == [];
  }

  // ---------- facts about reading ----------

  /** Where a balanced text with an outer operator is cut, both parts are balanced. */
  lemma {:induction false} CutBalanced(ts: seq<Tok>, op: Tok, d: nat)
    requires op != Open && op != Close && Nest(ts, d).At?
    requires FirstTop(ts, op, d) != -1
    ensures var k := FirstTop(ts, op, d);
      Nest(ts[..k], d) == At(0) && Nest(ts[k + 1..], 0) == Nest(ts, d) && ts[k] == op
  {
    var k := FirstTop(ts, op, d);
    if k > 0 {
      assert ts[..k][1..] == ts[1..][..k - 1];
      assert ts[k + 1..] == ts[1..][k..];
      CutBalanced(ts[1..], op, Next(ts[0], d));
    } else {
      assert ts[..0] == [];
    }
  }

  lemma OrAssociative(a: Truth, b: Truth, c: Truth)
    ensures Or3(Or3(a, b), c) == Or3(a, Or3(b, c))
    ensures And3(And3(a, b), c) == And3(a, And3(b, c))
  {}

  /** `a OR b` is the disjunction of what `a` and `b` say. */
  lemma {:induction false} ReadOrJoin(a: seq<Tok>, b: seq<Tok>, atom: seq<Tok> -> Truth)
    requires Balanced(a)
    ensures ReadOr(a + [Or] + b, atom) == Or3(ReadOr(a, atom), ReadOr(b, atom))
    decreases |a|
  {
    var ts := a + [Or] + b;
    assert ts == a + ([Or] + b);
    FirstTopAppend(a, [Or] + b, Or, 0);
    var k := FirstTop(a, Or, 0);
    if k == -1 {
      assert ts[..|a|] == a && ts[|a| + 1..] == b;
    } else {
      CutBalanced(a, Or, 0);
      var rest := a[k + 1..];
      assert ts[..k] == a[..k];
      assert ts[k + 1..] == rest + [Or] + b;
      ReadOrJoin(rest, b, atom);
      OrAssociative(ReadAnd(a[..k], atom), ReadOr(rest, atom), ReadOr(b, atom));
    }
  }

  lemma {:induction false} ReadAndJoin(a: seq<Tok>, b: seq<Tok>, atom: seq<Tok> -> Truth)
    requires Balanced(a)
    ensures ReadAnd(a + [And] + b, atom) == And3(ReadAnd(a, atom), ReadAnd(b, atom))
    decreases |a|
  {
    var ts := a + [And] + b;
    assert ts == a + ([And] + b);
    FirstTopAppend(a, [And] + b, And, 0);
    var k := FirstTop(a, And, 0);
    if k == -1 {
      assert ts[..|a|] == a && ts[|a| + 1..] == b;
    } else {
      CutBalanced(a, And, 0);
      var rest := a[k + 1..];
      assert ts[..k] == a[..k];
      assert ts[k + 1..] == rest + [And] + b;
      ReadAndJoin(rest, b, atom);
      OrAssociative(ReadFactor(a[..k], atom), ReadAnd(rest, atom), ReadAnd(b, atom));
    }
  }

  /** A group means what is inside it. */
  lemma ReadGroup(a: seq<Tok>, atom: seq<Tok> -> Truth)
    requires Balanced(a)
    ensures var g := [Open] + a + [Close];
      ReadFactor(g, atom) == ReadAnd(g, atom) == ReadOr(g, atom) == ReadOr(a, atom)
  {
    var g := [Open] + a + [Close];
    BalancedGroup(a);
    GroupHides(a, Or);
    GroupHides(a, And);
    assert g[1..|g| - 1] == a;
  }

  lemma ReadNotGroup(a: seq<Tok>, atom: seq<Tok> -> Truth)
    requires Balanced(a)
    ensures var g := [Not] + ([Open] + a + [Close]);
      && ReadFactor(g, atom) == ReadAnd(g, atom) == ReadOr(g, atom) == Not3(ReadOr(a, atom))
      && Balanced(g) && FirstTop(g, Or, 0) == -1
  {
    var g := [Open] + a + [Close];
    assert ([Not] + g)[1..] == g;
    BalancedGroup(a);
    GroupHides(a, Or);
    GroupHides(a, And);
    ReadGroup(a, atom);
  }

  /** Without an outer OR, a text reads as a conjunction. */
  lemma ReadNoOr(a: seq<Tok>, atom: seq<Tok> -> Truth)
    requires FirstTop(a, Or, 0) == -1
    ensures ReadOr(a, atom) == ReadAnd(a, atom)
  {}

  // ---------- lists of conditions ----------

  /** strings.Join with " AND " or " OR ". */
  function Join(parts: seq<seq<Tok>>, op: Tok): seq<Tok> {
    if parts == [] then []
    else if |parts| == 1 then parts[0]
    else parts[0] + [op] + Join(parts[1..], op)
  }

  /** A condition that an AND or OR around it cannot take apart. */
  predicate Conjunct(ts: seq<Tok>) {
    Balanced(ts) && FirstTop(ts, Or, 0) == -1
  }

  function AllOf(parts: seq<seq<Tok>>, atom: seq<Tok> -> Truth): Truth {
    if parts == [] then True else And3(ReadOr(parts[0], atom), AllOf(parts[1..], atom))
  }

  function SomeOf(parts: seq<seq<Tok>>, atom: seq<Tok> -> Truth): Truth {
    if parts == [] then False else Or3(ReadOr(parts[0], atom), SomeOf(parts[1..], atom))
  }

  lemma {:induction false} AllOfAppend(a: seq<seq<Tok>>, b: seq<seq<Tok>>, atom: seq<Tok> -> Truth)
    ensures AllOf(a + b, atom) == And3(AllOf(a, atom), AllOf(b, atom))
  {
    if a == [] {
      assert a + b == b;
    } else {
      assert (a + b)[1..] == a[1..] + b;
      AllOfAppend(a[1..], b, atom);
      OrAssociative(ReadOr(a[0], atom), AllOf(a[1..], atom), AllOf(b, atom));
    }
  }

  lemma ConjunctAnd(a: seq<Tok>, b: seq<Tok>)
    requires Conjunct(a) && Conjunct(b)
    ensures Conjunct(a + [And] + b)
  {
    BalancedSingle(And);
    BalancedAppend(a, [And]);
    BalancedAppend(a + [And], b);
    var tail := [And] + b;
    assert tail[1..] == b;
    FirstTopAppend(a, tail, Or, 0);
    assert a + [And] + b == a + tail;
  }

  /** Conjuncts joined by AND read as the conjunction of them all, and the
      result is again a conjunct. */
  lemma {:induction false} ReadAllOf(parts: seq<seq<Tok>>, atom: seq<Tok> -> Truth)
    requires parts != [] && forall i :: 0 <= i < |parts| ==> Conjunct(parts[i])
    ensures Conjunct(Join(parts, And))
    ensures ReadOr(Join(parts, And), atom) == AllOf(parts, atom)
  {
    hide ReadOr, ReadAnd, ReadFactor, Nest, FirstTop;
    var p := parts[0];
    if |parts| == 1 {
      assert AllOf(parts[1..], atom) == True;
    } else {
      var rest := Join(parts[1..], And);
      ReadAllOf(parts[1..], atom);
      ReadAndJoin(p, rest, atom);
      ConjunctAnd(p, rest);
      ReadNoOr(p, atom);
      ReadNoOr(rest, atom);
      ReadNoOr(p + [And] + rest, atom);
    }
  }

  lemma {:induction false} ReadSomeOf(parts: seq<seq<Tok>>, atom: seq<Tok> -> Truth)
    requires parts != [] && forall i :: 0 <= i < |parts| ==> Balanced(parts[i])
    ensures Balanced(Join(parts, Or))
    ensures ReadOr(Join(parts, Or), atom) == SomeOf(parts, atom)
  {
    if |parts| == 1 {
      assert SomeOf(parts[1..], atom) == False;
    } else {
      var rest := Join(parts[1..], Or);
      ReadSomeOf(parts[1..], atom);
      ReadOrJoin(parts[0], rest, atom);
      BalancedSingle(Or);
      BalancedAppend(parts[0], [Or]);
      BalancedAppend(parts[0] + [Or], rest);
    }
  }
}
