/**
  What the operators of a condition compute, said on values and carried to whole texts: the
  order of numbers, equality kind by kind, the connectives over truth, and what literals and
  references stand for.
 */
module ExprLaws {
  import opened Wrappers
  import opened Strings
  import opened ExprEval

  // ---- Truth ----

  /** Which values count as true, kind by kind. */
  ghost predicate Holds(v: ExprValue) {
    && (v.Bool? ==> v == Bool(true))
    && (v.Int? ==> v != Int(0))
    && (v.Float? ==> v != Float(0.0))
    && (v.Str? ==> |v.s| > 0)
    && (v.List? ==> |v.items| > 0)
    && (v.Map? ==> exists k :: k in v.fields)
    && !v.Null?
  }

  lemma TruthIff(v: ExprValue)
    ensures ToBool(v) <==> Holds(v)
  {
    if v.Map? && v.fields != map[] {
      var k :| k in v.fields;
    }
  }

  // Both operands have a value.
  ghost predicate Operands(read: FloatReader, t: Tree, context: Context, left: ExprValue, right: ExprValue) {
    t.Bin? && Meaning(read, t.left, context) == Ok(left) && Meaning(read, t.right, context) == Ok(right)
  }

  /** `||`, `&&` and `!` are the connectives over truth. */
  lemma Connectives(read: FloatReader, t: Tree, context: Context, left: ExprValue, right: ExprValue)
    requires Operands(read, t, context, left, right)
    ensures OPS[t.op] == "||" ==> Meaning(read, t, context) == Ok(Bool(Holds(left) || Holds(right)))
    ensures OPS[t.op] == "&&" ==> Meaning(read, t, context) == Ok(Bool(Holds(left) && Holds(right)))
    ensures Meaning(read, Not(t.left), context) == Ok(Bool(!Holds(left)))
  {
    TruthIff(left);
    TruthIff(right);
  }

  /** An error on either side is the result of every operator, the left one's first. */
  lemma ErrorsPass(read: FloatReader, t: Tree, context: Context)
    requires t.Bin? && (Meaning(read, t.left, context).Err? || Meaning(read, t.right, context).Err?)
    ensures Meaning(read, t, context)
         == if Meaning(read, t.left, context).Err? then Meaning(read, t.left, context) else Meaning(read, t.right, context)
  {
  }

  // ---- Equality ----

  ghost predicate Same(a: ExprValue, b: ExprValue) {
    || (a == b && (a.Bool? || a.Int? || a.Str? || a.Null?))
    || (a.Float? && b.Float? && -1.0 < (a.f - b.f) * 4503599627370496.0 < 1.0)
  }

  /**
    `==` is equality on booleans, integers, strings and null, closeness on floats, and false on
    everything else: across kinds, and on lists and maps even of themselves.  `!=` is its
    complement on all values.
   */
  lemma EqualityIff(read: FloatReader, t: Tree, context: Context, left: ExprValue, right: ExprValue)
    requires Operands(read, t, context, left, right)
    ensures OPS[t.op] == "==" ==> Meaning(read, t, context) == Ok(Bool(Same(left, right)))
    ensures OPS[t.op] == "!=" ==> Meaning(read, t, context) == Ok(Bool(!Same(left, right)))
  {
  }

  // ---- Order ----

  // The number a value stands for, read off its text when it is a string.
  ghost predicate IsNumber(read: FloatReader, v: ExprValue, x: real) {
    || v == Float(x)
    || (v.Int? && v.n as real == x)
    || (v.Str? && read(v.s) == Some(x))
  }

  ghost predicate NotANumber(read: FloatReader, v: ExprValue) {
    forall x :: !IsNumber(read, v, x)
  }

  /** `>`, `<`, `>=` and `<=` are the order of the numbers, integers, floats and numeric strings alike. */
  lemma OrderIff(read: FloatReader, t: Tree, context: Context, left: ExprValue, right: ExprValue, x: real, y: real)
    requires Operands(read, t, context, left, right) && IsNumber(read, left, x) && IsNumber(read, right, y)
    ensures OPS[t.op] == ">" ==> Meaning(read, t, context) == Ok(Bool(x > y))
    ensures OPS[t.op] == "<" ==> Meaning(read, t, context) == Ok(Bool(x < y))
    ensures OPS[t.op] == ">=" ==> Meaning(read, t, context) == Ok(Bool(x >= y))
    ensures OPS[t.op] == "<=" ==> Meaning(read, t, context) == Ok(Bool(x <= y))
  {
  }

  /** An operand that is no number makes them fail, and only the comparisons of order. */
  lemma OrderNeedsNumbers(read: FloatReader, t: Tree, context: Context, left: ExprValue, right: ExprValue)
    requires Operands(read, t, context, left, right)
    ensures Meaning(read, t, context).Err?
       <==> OPS[t.op] in [">", "<", ">=", "<="] && (NotANumber(read, left) || NotANumber(read, right))
  {
    NumberOrNot(read, left);
    NumberOrNot(read, right);
  }

  lemma NumberOrNot(read: FloatReader, v: ExprValue)
    ensures NotANumber(read, v) <==> ToFloat(read, v).Err?
  {
    if ToFloat(read, v).Ok? {
      assert IsNumber(read, v, ToFloat(read, v).value);
    }
  }

  // What a comparison of two integers should say.
  predicate IntegerOrder(op: string, l: int, r: int) {
    || (op == "==" && l == r)
    || (op == "!=" && l != r)
    || (op == ">" && l > r)
    || (op == "<" && l < r)
    || (op == ">=" && l >= r)
    || (op == "<=" && l <= r)
  }

  lemma OrderOfIntegers(read: FloatReader, t: Tree, context: Context, l: int, r: int)
    requires Operands(read, t, context, Int(l), Int(r)) && t.op >= 2
    ensures Meaning(read, t, context) == Ok(Bool(IntegerOrder(OPS[t.op], l, r)))
  {
    EqualityIff(read, t, context, Int(l), Int(r));
    OrderIff(read, t, context, Int(l), Int(r), l as real, r as real);
    assert OPS[t.op] in ["==", "!=", ">=", "<=", ">", "<"];
  }

  // ---- Grouping ----

  // From the operator that binds weakest to the one that binds tightest.
  function Strength(op: string): nat {
    match op
    case "||" => 0
    case "&&" => 1
    case "==" => 2
    case "!=" => 3
    case ">=" => 4
    case "<=" => 5
    case ">" => 6
    case _ => 7
  }

  // `a x b y c` is read as `(a x b) y c`.
  predicate GroupsLeft(x: string, y: string) {
    Strength(y) < Strength(x) || (x == y && x in ["||", "&&"])
  }

  /**
    Two operators in a row: the weaker one is the outer one, each comparison with a strength of
    its own; equal logical operators group to the left, equal comparisons to the right.
   */
  lemma Grouping(x: Level, y: Level, a: string, b: string, c: string)
    requires Printable(Atom(a)) && Printable(Atom(b)) && Printable(Atom(c))
    ensures Parse(a + " " + OPS[x] + " " + b + " " + OPS[y] + " " + c)
         == if GroupsLeft(OPS[x], OPS[y]) then Bin(y, Bin(x, Atom(a), Atom(b)), Atom(c))
            else Bin(x, Atom(a), Bin(y, Atom(b), Atom(c)))
  {
    assert Strength(OPS[x]) == x && Strength(OPS[y]) == y;
    var t := if GroupsLeft(OPS[x], OPS[y]) then Bin(y, Bin(x, Atom(a), Atom(b)), Atom(c))
             else Bin(x, Atom(a), Bin(y, Atom(b), Atom(c)));
    assert Printable(t);
    PrintsInARow(x, y, a, b, c);
    hide *;
    ParsePrint(t);
  }

  lemma PrintsInARow(x: Level, y: Level, a: string, b: string, c: string)
    ensures Print(Bin(y, Bin(x, Atom(a), Atom(b)), Atom(c))) == a + " " + OPS[x] + " " + b + " " + OPS[y] + " " + c
    ensures Print(Bin(x, Atom(a), Bin(y, Atom(b), Atom(c)))) == a + " " + OPS[x] + " " + b + " " + OPS[y] + " " + c
  {
    PrintsBin(x, Atom(a), Atom(b));
    PrintsBin(y, Atom(b), Atom(c));
    PrintsBin(y, Bin(x, Atom(a), Atom(b)), Atom(c));
    PrintsBin(x, Atom(a), Bin(y, Atom(b), Atom(c)));
    assert forall text :: Print(Atom(text)) == text;
    hide *;
  }

  lemma PrintsBin(k: Level, left: Tree, right: Tree)
    ensures Print(Bin(k, left, right)) == Print(left) + " " + OPS[k] + " " + Print(right)
  {
    assert Separator(k) == " " + OPS[k] + " ";
    hide *;
  }

  // ---- Decimal numerals ----

  function DigitOf(d: nat): char
    requires d < 10
  {
    '0' + d as char
  }

  function Digits(n: nat): (s: string)
    ensures s != "" && forall i :: 0 <= i < |s| ==> '0' <= s[i] <= '9'
  {
    if n < 10 then [DigitOf(n)] else Digits(n / 10) + [DigitOf(n % 10)]
  }

  function Decimal(n: int): (s: string)
    ensures s != "" && forall i :: 0 <= i < |s| ==> '0' <= s[i] <= '9' || s[i] == '-'
  {
    if n < 0 then "-" + Digits(-n) else Digits(n)
  }

  lemma {:induction false} DigitsRead(n: nat)
    ensures DigitsValue(Digits(n)) == n
  {
    if n < 10 {
      var s := Digits(n);
      assert s[..0] == "" && DigitsValue("") == 0;
    } else {
      DigitsRead(n / 10);
      var s := Digits(n);
      assert s[..|s| - 1] == Digits(n / 10);
    }
  }

  /** Every 64-bit integer reads back from its numeral. */
  lemma DecimalReads(n: int)
    requires I64_MIN <= n <= I64_MAX
    ensures ParseI64(Decimal(n)) == Some(n)
  {
    var digits := Digits(if n < 0 then -n else n);
    DigitsRead(if n < 0 then -n else n);
    if n < 0 {
      assert Decimal(n)[1..] == digits;
    } else {
      assert Decimal(n)[0] != '+' && Decimal(n)[0] != '-';
    }
  }

  // ---- What a word stands for ----

  // No part of an operator, and no blank.
  predicate IsPlainChar(c: char) {
    c !in "|&=!><" && !IsSpace(c)
  }

  lemma PlainIsWord(text: string)
    requires text != "" && forall i :: 0 <= i < |text| ==> IsPlainChar(text[i])
    ensures IsWord(text)
  {
    forall k: Level ensures !HoldsOp(text, k) {
      PlainHoldsNoOp(text, k);
    }
  }

  lemma PlainHoldsNoOp(text: string, k: Level)
    requires forall i :: 0 <= i < |text| ==> IsPlainChar(text[i])
    ensures !HoldsOp(text, k)
  {
    hide IsSpace;
    forall i: nat | i <= |text| + 2 ensures !Occurs(" " + text + " ", Separator(k), i) {
      if Occurs(" " + text + " ", Separator(k), i) {
        var j := OpCharInside(text, k, i);
      }
    }
  }

  lemma OpCharInside(text: string, k: Level, i: nat) returns (j: nat)
    requires Occurs(" " + text + " ", Separator(k), i)
    ensures j < |text| && text[j] in "|&=!><"
  {
    var padded := " " + text + " ";
    OpsAreWords(k);
    SeparatorAt(padded, k, i);
    assert padded[i + 1] == padded[i + 1..i + 1 + |OPS[k]|][0] == OPS[k][0];
    assert OPS[k][0] != ' ';
    j := i;
  }

  lemma DecimalIsPlain(n: int)
    ensures forall i :: 0 <= i < |Decimal(n)| ==> IsPlainChar(Decimal(n)[i])
  {
  }

  // A plain word that ends in a keyword would hold a blank.
  lemma PlainHasNoKeyword(text: string)
    requires text != "" && forall i :: 0 <= i < |text| ==> IsPlainChar(text[i])
    ensures Trim(text) == text && !EndsWith(text, " exists") && !EndsWith(text, " is empty")
  {
    assert IsSpace(' ');
    if EndsWith(text, " exists") {
      var i := BlankInside(text, " exists");
    }
    if EndsWith(text, " is empty") {
      var i := BlankInside(text, " is empty");
    }
  }

  lemma BlankInside(text: string, suffix: string) returns (i: nat)
    requires EndsWith(text, suffix) && suffix != "" && suffix[0] == ' '
    ensures i < |text| && text[i] == ' '
  {
    i := |text| - |suffix|;
    assert text[i..][0] == ' ';
  }

  lemma NumeralMeans(read: FloatReader, text: string, n: int, context: Context)
    requires Trim(text) == text && ParseI64(text) == Some(n)
    requires text != "" && ('0' <= text[0] <= '9' || text[0] == '-')
    ensures EvalValue(read, text, context) == Ok(Int(n))
  {
    hide Trim, ParseI64;
    assert text != "true" && text != "false" && text != "null" && text != "None";
  }

  lemma PlainAtom(read: FloatReader, text: string, context: Context)
    requires IsWord(text) && !EndsWith(text, " exists") && !EndsWith(text, " is empty")
    ensures Printable(Atom(text)) && Meaning(read, Atom(text), context) == EvalValue(read, text, context)
  {
    hide IsWord, EndsWith, EvalValue;
  }

  lemma DecimalStarts(n: int)
    ensures '0' <= Decimal(n)[0] <= '9' || Decimal(n)[0] == '-'
  {
  }

  lemma DecimalMeans(read: FloatReader, n: int, context: Context)
    requires I64_MIN <= n <= I64_MAX
    ensures Printable(Atom(Decimal(n))) && Meaning(read, Atom(Decimal(n)), context) == Ok(Int(n))
  {
    hide *;
    DecimalStarts(n);
    DecimalIsPlain(n);
    DecimalReads(n);
    PlainIsWord(Decimal(n));
    PlainHasNoKeyword(Decimal(n));
    NumeralMeans(read, Decimal(n), n, context);
    PlainAtom(read, Decimal(n), context);
  }

  lemma DecimalTree(read: FloatReader, op: Level, l: int, r: int, context: Context)
    requires op >= 2 && I64_MIN <= l <= I64_MAX && I64_MIN <= r <= I64_MAX
    ensures var t := Bin(op, Atom(Decimal(l)), Atom(Decimal(r)));
      Printable(t) && Operands(read, t, context, Int(l), Int(r))
  {
    hide Decimal;
    DecimalMeans(read, l, context);
    DecimalMeans(read, r, context);
  }

  /** Written out, blanks around the operator, a comparison of two integers says how they compare. */
  lemma EvaluateIntegers(read: FloatReader, op: Level, l: int, r: int, context: Context)
    requires op >= 2 && I64_MIN <= l <= I64_MAX && I64_MIN <= r <= I64_MAX
    ensures Evaluate(read, Decimal(l) + " " + OPS[op] + " " + Decimal(r), context) == Ok(Bool(IntegerOrder(OPS[op], l, r)))
  {
    hide Decimal, Evaluate, Meaning;
    var t := Bin(op, Atom(Decimal(l)), Atom(Decimal(r)));
    DecimalTree(read, op, l, r, context);
    OrderOfIntegers(read, t, context, l, r);
    EvaluatePrint(read, t, context);
    PrintOfAtoms(op, Decimal(l), Decimal(r));
  }

  lemma PrintOfAtoms(op: Level, left: string, right: string)
    ensures Print(Bin(op, Atom(left), Atom(right))) == left + " " + OPS[op] + " " + right
  {
    assert left + (" " + OPS[op] + " ") + right == left + " " + OPS[op] + " " + right;
  }

  // ---- Literals and references ----

  /** The literals, blanks around them included. */
  lemma LiteralsMean(read: FloatReader, pre: string, post: string, context: Context)
    requires AllSpace(pre) && AllSpace(post)
    ensures EvalValue(read, pre + "true" + post, context) == Ok(Bool(true))
    ensures EvalValue(read, pre + "false" + post, context) == Ok(Bool(false))
    ensures EvalValue(read, pre + "null" + post, context) == Ok(Null)
    ensures EvalValue(read, pre + "None" + post, context) == Ok(Null)
  {
    TrimDrops(pre, "true", post);
    TrimDrops(pre, "false", post);
    TrimDrops(pre, "null", post);
    TrimDrops(pre, "None", post);
    hide Trim;
  }

  /** Text in matching quotes stands for itself. */
  lemma QuotedMeans(read: FloatReader, pre: string, quote: char, text: string, post: string, context: Context)
    requires AllSpace(pre) && AllSpace(post) && (quote == '"' || quote == '\'')
    ensures EvalValue(read, pre + ([quote] + text + [quote]) + post, context) == Ok(Str(text))
  {
    var e := [quote] + text + [quote];
    assert e[1..|e| - 1] == text && e[0] == quote && e[|e| - 1] == quote;
    assert !IsSpace(quote);
    TrimDrops(pre, e, post);
    hide Trim, ParseI64;
    assert e != "true" && e != "false" && e != "null" && e != "None";
  }

  // A chain of values from `root` to `v`, each under its name in the map before it.
  ghost predicate IsChain(chain: seq<ExprValue>, root: ExprValue, names: seq<string>, v: ExprValue) {
    && |chain| == |names| + 1 && chain[0] == root && chain[|names|] == v
    && forall i :: 0 <= i < |names| ==> chain[i].Map? && names[i] in chain[i].fields && chain[i].fields[names[i]] == chain[i + 1]
  }

  ghost predicate Leads(root: ExprValue, names: seq<string>, v: ExprValue) {
    exists chain :: IsChain(chain, root, names, v)
  }

  lemma {:induction false} WalkIff(text: string, root: ExprValue, names: seq<string>, v: ExprValue)
    ensures WalkFields(text, root, names) == Ok(v) <==> Leads(root, names, v)
    decreases |names|
  {
    if names == [] {
      if root == v {
        assert IsChain([v], root, names, v);
      }
    } else if root.Map? && names[0] in root.fields {
      var next := root.fields[names[0]];
      WalkIff(text, next, names[1..], v);
      ChainSteps(root, names, v);
    } else if Leads(root, names, v) {
      FirstLink(root, names, v);
    }
  }

  lemma FirstLink(root: ExprValue, names: seq<string>, v: ExprValue)
    requires names != [] && Leads(root, names, v)
    ensures root.Map? && names[0] in root.fields
  {
    var chain: seq<ExprValue> :| IsChain(chain, root, names, v);
    assert chain[0].Map? && names[0] in chain[0].fields;
  }

  lemma ChainSteps(root: ExprValue, names: seq<string>, v: ExprValue)
    requires names != [] && root.Map? && names[0] in root.fields
    ensures Leads(root, names, v) <==> Leads(root.fields[names[0]], names[1..], v)
  {
    var next := root.fields[names[0]];
    if Leads(root, names, v) {
      var chain: seq<ExprValue> :| IsChain(chain, root, names, v);
      assert chain[0].fields[names[0]] == chain[1];
      assert forall i :: 0 <= i < |names| - 1 ==> chain[1..][i] == chain[i + 1] && names[1..][i] == names[i + 1];
      assert IsChain(chain[1..], next, names[1..], v);
    }
    if Leads(next, names[1..], v) {
      var chain: seq<ExprValue> :| IsChain(chain, next, names[1..], v);
      var whole := [root] + chain;
      assert forall i :: 1 <= i < |whole| ==> whole[i] == chain[i - 1];
      assert forall i :: 1 <= i < |names| ==> names[i] == names[1..][i - 1];
      assert IsChain(whole, root, names, v);
    }
  }

  // A text nothing else claims: no literal, quotes or number.
  predicate IsReferenceText(read: FloatReader, text: string) {
    && Tight(text) && text !in ["true", "false", "null", "None"] && !IsQuoted(text)
    && ParseI64(text).None? && read(text).None?
  }

  /** A reference stands for what its parts lead to from the context, and for nothing else. */
  lemma ReferenceMeans(read: FloatReader, parts: seq<string>, context: Context, v: ExprValue)
    requires parts != [] && NoneHolds(parts, '.') && IsReferenceText(read, Join(parts, '.'))
    ensures EvalValue(read, Join(parts, '.'), context) == Ok(v)
       <==> parts[0] in context && Leads(context[parts[0]], parts[1..], v)
  {
    var text := Join(parts, '.');
    assert "" + text + "" == text;
    TrimDrops("", text, "");
    SplitJoin(parts, '.');
    hide Join, Trim, Split, ParseI64, IsQuoted, WalkFields, Leads;
    if parts[0] in context {
      WalkIff(text, context[parts[0]], parts[1..], v);
    }
  }

  /** `exists` asks for a value that is not null; `is empty` for an empty or null one. */
  lemma KeywordsMean(read: FloatReader, reference: string, context: Context)
    ensures Meaning(read, Exists(reference), context)
         == Ok(Bool(exists v: ExprValue :: v != Null && EvalValue(read, reference, context) == Ok(v)))
    ensures EvalValue(read, reference, context).Err? ==>
              Meaning(read, IsEmpty(reference), context) == EvalValue(read, reference, context)
    ensures EvalValue(read, reference, context).Ok? ==>
              var v := EvalValue(read, reference, context).value;
              Meaning(read, IsEmpty(reference), context)
              == Ok(Bool(v.Null? || ((v.Str? || v.List? || v.Map?) && !Holds(v))))
  {
    var found := EvalValue(read, reference, context);
    if found.Ok? {
      TruthIff(found.value);
    }
  }

  /** Written after a word, and `!` before one. */
  lemma KeywordTexts(read: FloatReader, word: string, context: Context)
    requires IsWord(word)
    ensures Evaluate(read, word + " exists", context)
         == Ok(Bool(exists v: ExprValue :: v != Null && EvalValue(read, word, context) == Ok(v)))
    ensures var v := EvalValue(read, word, context);
      Evaluate(read, word + " is empty", context)
      == if v.Err? then v else Ok(Bool(v.value.Null? || ((v.value.Str? || v.value.List? || v.value.Map?) && !Holds(v.value))))
    ensures Printable(Atom(word)) ==>
              var v := EvalValue(read, word, context);
              Evaluate(read, "!" + word, context) == if v.Err? then v else Ok(Bool(!Holds(v.value)))
  {
    assert Print(Exists(word)) == word + " exists" && Print(IsEmpty(word)) == word + " is empty" && Print(Not(Atom(word))) == "!" + word;
    assert Printable(Exists(word)) && Printable(IsEmpty(word)) && (Printable(Atom(word)) ==> Printable(Not(Atom(word))));
    hide IsWord, Printable, Print, Evaluate, EvalValue, Holds;
    EvaluatePrint(read, Exists(word), context);
    EvaluatePrint(read, IsEmpty(word), context);
    KeywordsMean(read, word, context);
    if Printable(Atom(word)) {
      EvaluatePrint(read, Not(Atom(word)), context);
      if EvalValue(read, word, context).Ok? {
        TruthIff(EvalValue(read, word, context).value);
      }
    }
  }
}
