/**
 Collecting bound values (scope.go:267-293): every value given to a query is
 appended to SQLVars and replaced in the text by the placeholder of its place
 in that list; an SqlExpr is spliced in with its own values.
 */
module BindVars {
  import opened SqlReading

  /** A value handed to the query builder: a plain one, or gorm.Expr(template, args...). */
  datatype Arg = Plain(v: Val) | Expr(template: seq<Tok>, args: seq<Arg>)

  /** strings.Replace(exp, "?", by, 1) */
  function ReplaceFirst(exp: seq<Tok>, repl: seq<Tok>): seq<Tok> {
    if exp == [] then []
    else if exp[0] == Mark then repl + exp[1..]
    else [exp[0]] + ReplaceFirst(exp[1..], repl)
  }

  /** What `AddToVars` prints for a value: the dialect's own numbered placeholder
      ("$1", "$$$"), the '?' of dialects such as dialects/dameng, or, when bind
      variables are skipped, a '?' in text that is not spliced at all. */
  datatype Binding = Numbered | Question | Skipped

  function Placeholder(binding: Binding, n: nat): Tok {
    if binding.Numbered? then Bind(n) else Mark
  }

  /** The text `AddToVars` returns for a value, and the list it leaves behind. */
  function AddedIn(binding: Binding, value: Arg, vars: seq<Val>): (r: (seq<Tok>, seq<Val>))
    ensures vars <= r.1
    decreases value, 1
  {
    match value
    case Plain(v) => ([Placeholder(binding, |vars| + 1)], vars + [v])
    case Expr(template, args) => SplicedIn(binding, template, args, vars)
  }

  function SplicedIn(binding: Binding, exp: seq<Tok>, args: seq<Arg>, vars: seq<Val>): (r: (seq<Tok>, seq<Val>))
    ensures vars <= r.1
    decreases args, 0
  {
    if args == [] then (exp, vars)
    else
      var (text, vars') := AddedIn(binding, args[0], vars);
      SplicedIn(binding, if binding.Skipped? then exp else ReplaceFirst(exp, text), args[1..], vars')
  }

  /** The same for a dialect whose placeholders are numbered. */
  function Added(value: Arg, vars: seq<Val>): (r: (seq<Tok>, seq<Val>))
    ensures vars <= r.1
  {
    AddedIn(Numbered, value, vars)
  }

  function Spliced(exp: seq<Tok>, args: seq<Arg>, vars: seq<Val>): (r: (seq<Tok>, seq<Val>))
    ensures vars <= r.1
  {
    SplicedIn(Numbered, exp, args, vars)
  }

  // ---------- what the text should say ----------

  function Marks(ts: seq<Tok>): nat {
    if ts == [] then 0 else (if ts[0] == Mark then 1 else 0) + Marks(ts[1..])
  }

  /** Each '?' in turn replaced by the next replacement, as long as there are any
      (the buffer loop of scope.go:690-699). */
  function Fill(ts: seq<Tok>, repls: seq<seq<Tok>>): seq<Tok> {
    if ts == [] then []
    else if ts[0] == Mark && repls != [] then repls[0] + Fill(ts[1..], repls[1..])
    else [ts[0]] + Fill(ts[1..], repls)
  }

  /** Text as a caller writes it: no placeholder or value is in it yet. */
  predicate Template(ts: seq<Tok>) {
    forall i :: 0 <= i < |ts| ==> !ts[i].Bind? && !ts[i].Lit?
  }

  /** Every template has as many '?' as it has arguments. */
  predicate WellMatched(value: Arg) {
    match value
    case Plain(_) => true
    case Expr(template, args) =>
      Template(template) && Marks(template) == |args| && forall i :: 0 <= i < |args| ==> WellMatched(args[i])
  }

  /** A value written out: each '?' replaced by what its own argument says. */
  function Inline(value: Arg): seq<Tok>
    decreases value, 1
  {
    match value
    case Plain(v) => [Lit(v)]
    case Expr(template, args) => Fill(template, InlineAll(args))
  }

  function InlineAll(args: seq<Arg>): (r: seq<seq<Tok>>)
    ensures |r| == |args|
    decreases args, 0
  {
    if args == [] then [] else [Inline(args[0])] + InlineAll(args[1..])
  }

  /** A numbered placeholder stands for the value at its place in the list. */
  function ResolveTok(t: Tok, vars: seq<Val>): Tok {
    if t.Bind? && 1 <= t.n <= |vars| then Lit(vars[t.n - 1]) else t
  }

  function Resolve(ts: seq<Tok>, vars: seq<Val>): (r: seq<Tok>)
    ensures |r| == |ts|
  {
    seq(|ts|, i requires 0 <= i < |ts| => ResolveTok(ts[i], vars))
  }

  /** The numbers of the placeholders, in the order they are printed. */
  function BindsOf(ts: seq<Tok>): seq<nat> {
    if ts == [] then [] else (if ts[0].Bind? then [ts[0].n] else []) + BindsOf(ts[1..])
  }

  /** a+1, a+2, ..., b */
  function Upto(a: nat, b: nat): (r: seq<nat>)
    requires a <= b
    ensures |r| == b - a
  {
    seq(b - a, i => a + 1 + i)
  }

  // ---------- lemmas ----------

  lemma {:induction false} BindsAppend(a: seq<Tok>, b: seq<Tok>)
    ensures BindsOf(a + b) == BindsOf(a) + BindsOf(b)
  {
    if a == [] {
      assert a + b == b;
    } else {
      assert (a + b)[0] == a[0] && (a + b)[1..] == a[1..] + b;
      BindsAppend(a[1..], b);
      var head := if a[0].Bind? then [a[0].n] else [];
      assert head + (BindsOf(a[1..]) + BindsOf(b)) == head + BindsOf(a[1..]) + BindsOf(b);
    }
  }

  lemma {:induction false} MarksAppend(a: seq<Tok>, b: seq<Tok>)
    ensures Marks(a + b) == Marks(a) + Marks(b)
  {
    if a == [] {
      assert a + b == b;
    } else {
      assert (a + b)[1..] == a[1..] + b;
      MarksAppend(a[1..], b);
    }
  }

  lemma {:induction false} TemplateBinds(ts: seq<Tok>)
    requires Template(ts)
    ensures BindsOf(ts) == []
  {
    if ts != [] {
      assert Template(ts[1..]) by {
        forall i | 0 <= i < |ts[1..]| ensures !ts[1..][i].Bind? && !ts[1..][i].Lit? {
          assert ts[1..][i] == ts[i + 1];
        }
      }
      TemplateBinds(ts[1..]);
    }
  }

  lemma {:induction false} FillNothing(ts: seq<Tok>, repls: seq<seq<Tok>>)
    requires Marks(ts) == 0 || repls == []
    ensures Fill(ts, repls) == ts
  {
    if ts != [] {
      FillNothing(ts[1..], repls);
    }
  }

  lemma {:induction false} FillAfterPlain(a: seq<Tok>, b: seq<Tok>, repls: seq<seq<Tok>>)
    requires Marks(a) == 0
    ensures Fill(a + b, repls) == a + Fill(b, repls)
  {
    if a == [] {
      assert a + b == b;
    } else {
      assert (a + b)[1..] == a[1..] + b;
      FillAfterPlain(a[1..], b, repls);
    }
  }

  /** Replacing the first '?' and then filling the rest is filling all of them. */
  lemma {:induction false} ReplaceThenFill(exp: seq<Tok>, repl: seq<Tok>, repls: seq<seq<Tok>>)
    requires Marks(repl) == 0 && Marks(exp) >= 1
    ensures Fill(ReplaceFirst(exp, repl), repls) == Fill(exp, [repl] + repls)
  {
    if exp[0] == Mark {
      FillAfterPlain(repl, exp[1..], repls);
      assert ([repl] + repls)[1..] == repls;
    } else {
      ReplaceThenFill(exp[1..], repl, repls);
      var r := ReplaceFirst(exp, repl);
      assert r[0] == exp[0] && r[1..] == ReplaceFirst(exp[1..], repl);
    }
  }

  lemma {:induction false} ReplaceMarks(exp: seq<Tok>, repl: seq<Tok>)
    requires Marks(repl) == 0 && Marks(exp) >= 1
    ensures Marks(ReplaceFirst(exp, repl)) == Marks(exp) - 1
  {
    if exp[0] == Mark {
      MarksAppend(repl, exp[1..]);
    } else {
      ReplaceMarks(exp[1..], repl);
      var r := ReplaceFirst(exp, repl);
      assert r[0] == exp[0] && r[1..] == ReplaceFirst(exp[1..], repl);
    }
  }

  /** The texts of a list of values, added one after another. */
  function AddedAllIn(binding: Binding, args: seq<Arg>, vars: seq<Val>): (r: (seq<seq<Tok>>, seq<Val>))
    ensures |r.0| == |args| && vars <= r.1
  {
    if args == [] then ([], vars)
    else
      var (text, vars') := AddedIn(binding, args[0], vars);
      var (texts, vars'') := AddedAllIn(binding, args[1..], vars');
      ([text] + texts, vars'')
  }

  function AddedAll(args: seq<Arg>, vars: seq<Val>): (r: (seq<seq<Tok>>, seq<Val>))
    ensures |r.0| == |args| && vars <= r.1
  {
    AddedAllIn(Numbered, args, vars)
  }

  /** Splicing one argument after another fills the template with them all. */
  lemma {:induction false} SplicedIsFill(exp: seq<Tok>, args: seq<Arg>, vars: seq<Val>)
    requires Marks(exp) == |args|
    requires forall i :: 0 <= i < |args| ==> Marks(AddedAll(args, vars).0[i]) == 0
    ensures Spliced(exp, args, vars) == (Fill(exp, AddedAll(args, vars).0), AddedAll(args, vars).1)
    decreases |args|
  {
    if args == [] {
      FillNothing(exp, []);
    } else {
      var (text, vars') := Added(args[0], vars);
      var (texts, _) := AddedAll(args[1..], vars');
      assert AddedAll(args, vars).0 == [text] + texts;
      assert Marks(text) == 0 by { assert AddedAll(args, vars).0[0] == text; }
      forall i | 0 <= i < |texts| ensures Marks(texts[i]) == 0 {
        assert AddedAll(args, vars).0[i + 1] == texts[i];
      }
      ReplaceMarks(exp, text);
      SplicedIsFill(ReplaceFirst(exp, text), args[1..], vars');
      ReplaceThenFill(exp, text, texts);
    }
  }

  /** What is known of the text added for a value when the list grows from
      `before` to `after`: no '?' is left, its placeholders are exactly the new
      numbers in order, and it says what the value says. */
  ghost predicate Faithful(text: seq<Tok>, says: seq<Tok>, before: seq<Val>, after: seq<Val>) {
    && before <= after
    && Marks(text) == 0
    && BindsOf(text) == Upto(|before|, |after|)
    && Resolve(text, after) == says
  }

  lemma {:induction false} BindsMember(ts: seq<Tok>, i: nat)
    requires i < |ts| && ts[i].Bind?
    ensures ts[i].n in BindsOf(ts)
  {
    if i > 0 {
      BindsMember(ts[1..], i - 1);
    }
  }

  /** Values added later do not change what an earlier text says. */
  lemma FaithfulLater(text: seq<Tok>, says: seq<Tok>, before: seq<Val>, after: seq<Val>, later: seq<Val>)
    requires Faithful(text, says, before, after) && after <= later
    ensures Resolve(text, later) == says
  {
    forall i | 0 <= i < |text| ensures ResolveTok(text[i], later) == ResolveTok(text[i], after) {
      if text[i].Bind? {
        BindsMember(text, i);
        assert text[i].n in Upto(|before|, |after|);
      }
    }
    assert Resolve(text, later) == Resolve(text, after);
  }

  lemma ResolveAppend(a: seq<Tok>, b: seq<Tok>, vars: seq<Val>)
    ensures Resolve(a + b, vars) == Resolve(a, vars) + Resolve(b, vars)
  {}

  lemma TemplateResolve(ts: seq<Tok>, vars: seq<Val>)
    requires Template(ts)
    ensures Resolve(ts, vars) == ts
  {}

  lemma UptoAppend(a: nat, b: nat, c: nat)
    requires a <= b <= c
    ensures Upto(a, b) + Upto(b, c) == Upto(a, c)
  {}

  /** Texts added one after another are faithful side by side. */
  lemma FaithfulAppend(a: seq<Tok>, sa: seq<Tok>, b: seq<Tok>, sb: seq<Tok>, v0: seq<Val>, v1: seq<Val>, v2: seq<Val>)
    requires Faithful(a, sa, v0, v1) && Faithful(b, sb, v1, v2)
    ensures Faithful(a + b, sa + sb, v0, v2)
  {
    MarksAppend(a, b);
    BindsAppend(a, b);
    UptoAppend(|v0|, |v1|, |v2|);
    FaithfulLater(a, sa, v0, v1, v2);
    ResolveAppend(a, b, v2);
  }

  /** Text without placeholders is faithful to itself. */
  lemma FaithfulTemplate(ts: seq<Tok>, vars: seq<Val>)
    requires Template(ts) && Marks(ts) == 0
    ensures Faithful(ts, ts, vars, vars)
  {
    TemplateBinds(ts);
    TemplateResolve(ts, vars);
  }

  /** A list of texts, each faithful over its own stretch of the value list. */
  ghost predicate FaithfulList(texts: seq<seq<Tok>>, says: seq<seq<Tok>>, before: seq<Val>, after: seq<Val>)
    decreases |texts|
  {
    |texts| == |says| && before <= after &&
    if texts == [] then before == after
    else exists mid :: Faithful(texts[0], says[0], before, mid) && FaithfulList(texts[1..], says[1..], mid, after)
  }

  /** Filling a template with a faithful list is faithful. */
  lemma {:induction false} FillFaithful(ts: seq<Tok>, texts: seq<seq<Tok>>, says: seq<seq<Tok>>, v0: seq<Val>, v1: seq<Val>)
    requires Template(ts) && Marks(ts) == |texts|
    requires FaithfulList(texts, says, v0, v1)
    ensures Faithful(Fill(ts, texts), Fill(ts, says), v0, v1)
  {
    if ts == [] {
      assert Upto(|v0|, |v0|) == [];
    } else {
      assert Template(ts[1..]) by {
        forall i | 0 <= i < |ts[1..]| ensures !ts[1..][i].Bind? && !ts[1..][i].Lit? {
          assert ts[1..][i] == ts[i + 1];
        }
      }
      if ts[0] == Mark {
        var mid :| Faithful(texts[0], says[0], v0, mid) && FaithfulList(texts[1..], says[1..], mid, v1);
        FillFaithful(ts[1..], texts[1..], says[1..], mid, v1);
        FaithfulAppend(texts[0], says[0], Fill(ts[1..], texts[1..]), Fill(ts[1..], says[1..]), v0, mid, v1);
      } else {
        FillFaithful(ts[1..], texts, says, v0, v1);
        assert [ts[0]][1..] == [];
        FaithfulTemplate([ts[0]], v0);
        FaithfulAppend([ts[0]], [ts[0]], Fill(ts[1..], texts), Fill(ts[1..], says), v0, v0, v1);
      }
    }
  }

  /** For every tree of nested expressions whose '?' match their arguments, the
      text added for it says exactly what the tree says, with its placeholders
      numbered in the order they are printed. */
  lemma {:induction false} AddedFaithful(value: Arg, vars: seq<Val>)
    requires WellMatched(value)
    ensures Faithful(Added(value, vars).0, Inline(value), vars, Added(value, vars).1)
    decreases value, 1
  {
    match value
    case Plain(v) =>
      var t := [Bind(|vars| + 1)];
      assert t[1..] == [];
      assert BindsOf(t) == [|vars| + 1] + BindsOf([]);
      assert Resolve(t, vars + [v]) == [Lit(v)];
    case Expr(template, args) =>
      AddedAllFaithful(args, vars);
      var (texts, after) := AddedAll(args, vars);
      FaithfulNoMarks(texts, InlineAll(args), vars, after);
      SplicedIsFill(template, args, vars);
      FillFaithful(template, texts, InlineAll(args), vars, after);
  }

  lemma {:induction false} AddedAllFaithful(args: seq<Arg>, vars: seq<Val>)
    requires forall i :: 0 <= i < |args| ==> WellMatched(args[i])
    ensures FaithfulList(AddedAll(args, vars).0, InlineAll(args), vars, AddedAll(args, vars).1)
    decreases args, 0
  {
    if args != [] {
      AddedFaithful(args[0], vars);
      var (text, mid) := Added(args[0], vars);
      AddedAllFaithful(args[1..], mid);
      var (texts, after) := AddedAll(args, vars);
      assert texts[0] == text && texts[1..] == AddedAll(args[1..], mid).0;
      assert InlineAll(args)[1..] == InlineAll(args[1..]);
      assert Faithful(texts[0], InlineAll(args)[0], vars, mid);
    }
  }

  lemma {:induction false} FaithfulNoMarks(texts: seq<seq<Tok>>, says: seq<seq<Tok>>, v0: seq<Val>, v1: seq<Val>)
    requires FaithfulList(texts, says, v0, v1)
    ensures forall i :: 0 <= i < |texts| ==> Marks(texts[i]) == 0
  {
    if texts != [] {
      var mid :| Faithful(texts[0], says[0], v0, mid) && FaithfulList(texts[1..], says[1..], mid, v1);
      FaithfulNoMarks(texts[1..], says[1..], mid, v1);
      forall i | 0 <= i < |texts| ensures Marks(texts[i]) == 0 {
        if i > 0 { assert texts[i] == texts[1..][i - 1]; }
      }
    }
  }

  /** How many values an argument carries. */
  function Carried(value: Arg): nat
    decreases value, 1
  {
    match value
    case Plain(_) => 1
    case Expr(_, args) => CarriedAll(args)
  }

  function CarriedAll(args: seq<Arg>): nat
    decreases args, 0
  {
    if args == [] then 0 else Carried(args[0]) + CarriedAll(args[1..])
  }

  lemma {:induction false} AddedCount(value: Arg, vars: seq<Val>)
    ensures |Added(value, vars).1| == |vars| + Carried(value)
    decreases value, 1
  {
    if value.Expr? {
      SplicedCount(value.template, value.args, vars);
    }
  }

  lemma {:induction false} SplicedCount(exp: seq<Tok>, args: seq<Arg>, vars: seq<Val>)
    ensures |Spliced(exp, args, vars).1| == |vars| + CarriedAll(args)
    decreases args, 0
  {
    if args != [] {
      AddedCount(args[0], vars);
      var (text, vars') := Added(args[0], vars);
      SplicedCount(ReplaceFirst(exp, text), args[1..], vars');
    }
  }

  // ---------- when the counts do not match ----------

  lemma {:induction false} ReplaceCounts(exp: seq<Tok>, text: seq<Tok>)
    requires Marks(text) == 0
    ensures var r := ReplaceFirst(exp, text);
      if Marks(exp) == 0 then r == exp
      else Marks(r) == Marks(exp) - 1 && |BindsOf(r)| == |BindsOf(exp)| + |BindsOf(text)|
  {
    if exp != [] {
      var r := ReplaceFirst(exp, text);
      if exp[0] == Mark {
        MarksAppend(text, exp[1..]);
        BindsAppend(text, exp[1..]);
      } else {
        ReplaceCounts(exp[1..], text);
        assert r[0] == exp[0] && r[1..] == ReplaceFirst(exp[1..], text);
      }
    }
  }

  lemma {:induction false} CarriedSplit(args: seq<Arg>, k: nat)
    requires k <= |args|
    ensures CarriedAll(args) == CarriedAll(args[..k]) + CarriedAll(args[k..])
  {
    if k > 0 {
      CarriedSplit(args[1..], k - 1);
      assert args[..k][1..] == args[1..][..k - 1] && args[k..] == args[1..][k - 1..];
    } else {
      assert args[0..] == args;
    }
  }

  /** How many of the arguments find a '?'. */
  function Spliceable(exp: seq<Tok>, args: seq<Arg>): (k: nat)
    ensures k <= |args|
  {
    if |args| <= Marks(exp) then |args| else Marks(exp)
  }

  lemma {:induction false} SplicedCounts(exp: seq<Tok>, args: seq<Arg>, vars: seq<Val>)
    requires forall i :: 0 <= i < |args| ==> WellMatched(args[i])
    ensures var text, k := Spliced(exp, args, vars).0, Spliceable(exp, args);
      && |BindsOf(text)| == |BindsOf(exp)| + CarriedAll(args[..k])
      && Marks(text) == Marks(exp) - k
    decreases |args|
  {
    hide WellMatched;
    if args != [] {
      var (text, vars') := Added(args[0], vars);
      AddedFaithful(args[0], vars);
      AddedCount(args[0], vars);
      ReplaceCounts(exp, text);
      SplicedCounts(ReplaceFirst(exp, text), args[1..], vars');
      var k := Spliceable(exp, args);
      if k > 0 {
        assert args[..k][1..] == args[1..][..k - 1];
      } else {
        assert args[..k] == args[1..][..0] == [];
      }
    }
  }

  /** For arguments that are well matched themselves: an expression prints one
      placeholder for each value it collects, and leaves no '?', exactly when
      every '?' of its template has an argument and the arguments left over carry
      no values. A surplus value is collected but never printed, a surplus '?'
      stays in the text. */
  lemma CountsMatchExactly(template: seq<Tok>, args: seq<Arg>, vars: seq<Val>)
    requires Template(template)
    requires forall i :: 0 <= i < |args| ==> WellMatched(args[i])
    ensures var (text, after) := Added(Expr(template, args), vars);
      (|BindsOf(text)| == |after| - |vars| && Marks(text) == 0)
      <==> (Marks(template) <= |args| && CarriedAll(args[Marks(template)..]) == 0)
  {
    hide *;
    AddedExpr(template, args, vars);
    SplicedCounts(template, args, vars);
    SplicedCount(template, args, vars);
    TemplateBinds(template);
    CountsDecide(template, args);
  }

  lemma CountsDecide(template: seq<Tok>, args: seq<Arg>)
    ensures var k := Spliceable(template, args);
      (CarriedAll(args[..k]) == CarriedAll(args) && Marks(template) == k)
      <==> (Marks(template) <= |args| && CarriedAll(args[Marks(template)..]) == 0)
  {
    CarriedSplit(args, Spliceable(template, args));
  }

  lemma AddedExpr(template: seq<Tok>, args: seq<Arg>, vars: seq<Val>)
    ensures Added(Expr(template, args), vars) == Spliced(template, args, vars)
  {}
}
