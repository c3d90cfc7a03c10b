/**
  The condition evaluator: a recursive splitter over the text of an expression, shown to
  compute the meaning of the tree the text stands for.

  Numbers are exact here: a float is a real, and reading one from text is a parameter.
 */
module ExprEval {
  import opened Wrappers
  import opened Strings

  datatype ExprValue =
    | Bool(b: bool)
    | Int(n: int)
    | Float(f: real)
    | Str(s: string)
    | List(items: seq<ExprValue>)
    | Map(fields: map<string, ExprValue>)
    | Null

  datatype ExprError =
    | TypeError(expected: string)
    | UnknownReference(text: string)

  type Value = Result<ExprValue, ExprError>

  type Context = map<string, ExprValue>

  type FloatReader = string -> Option<real>

  // ---- Values ----

  const EPSILON: real := 1.0 / 4503599627370496.0

  const I64_MIN: int := -0x8000_0000_0000_0000
  const I64_MAX: int := 0x7fff_ffff_ffff_ffff

  predicate IsDigits(s: string) {
    s != "" && forall i :: 0 <= i < |s| ==> '0' <= s[i] <= '9'
  }

  function DigitsValue(s: string): nat
    requires forall i :: 0 <= i < |s| ==> '0' <= s[i] <= '9'
  {
    if s == "" then 0 else DigitsValue(s[..|s| - 1]) * 10 + (s[|s| - 1] - '0') as nat
  }

  // `parse::<i64>()`
  function ParseI64(s: string): Option<int> {
    var digits := if s != "" && (s[0] == '+' || s[0] == '-') then s[1..] else s;
    if !IsDigits(digits) then None
    else
      var n: int := if s[0] == '-' then 0 - DigitsValue(digits) else DigitsValue(digits);
      if I64_MIN <= n <= I64_MAX then Some(n) else None
  }

  function ToBool(v: ExprValue): bool {
    match v
    case Bool(b) => b
    case Int(n) => n != 0
    case Float(f) => f != 0.0
    case Str(s) => s != ""
    case List(items) => items != []
    case Map(fields) => fields != map[]
    case Null => false
  }

  predicate Equals(a: ExprValue, b: ExprValue) {
    match (a, b)
    case (Bool(x), Bool(y)) => x == y
    case (Int(x), Int(y)) => x == y
    case (Float(x), Float(y)) => (if x < y then y - x else x - y) < EPSILON
    case (Str(x), Str(y)) => x == y
    case (Null, Null) => true
    case _ => false
  }

  function ToFloat(read: FloatReader, v: ExprValue): Result<real, ExprError> {
    match v
    case Int(n) => Ok(n as real)
    case Float(f) => Ok(f)
    case Str(s) => if read(s).Some? then Ok(read(s).value) else Err(TypeError("numeric string"))
    case _ => Err(TypeError("number"))
  }

  function Compare(read: FloatReader, a: ExprValue, b: ExprValue): Result<int, ExprError> {
    match ToFloat(read, a)
    case Err(e) => Err(e)
    case Ok(x) =>
      match ToFloat(read, b)
      case Err(e) => Err(e)
      case Ok(y) => Ok(if x < y then -1 else if x > y then 1 else 0)
  }

  // The field walk of `eval_value`.
  function WalkFields(text: string, current: ExprValue, parts: seq<string>): Value
    decreases |parts|
  {
    if parts == [] then Ok(current)
    else if current.Map? then
      if parts[0] in current.fields then WalkFields(text, current.fields[parts[0]], parts[1..])
      else Err(UnknownReference(text))
    else Err(TypeError("map or object"))
  }

  method FollowFields(text: string, root: ExprValue, parts: seq<string>) returns (r: Value)
    ensures r == WalkFields(text, root, parts)
  {
    var current := root;
    for i := 0 to |parts|
      invariant WalkFields(text, root, parts) == WalkFields(text, current, parts[i..])
    {
      assert parts[i..][1..] == parts[i + 1..];
      match current {
        case Map(fields) =>
          if parts[i] !in fields {
            return Err(UnknownReference(text));
          }
          current := fields[parts[i]];
        case _ => return Err(TypeError("map or object"));
      }
    }
    assert parts[|parts|..] == [];
    return Ok(current);
  }

  predicate IsQuoted(s: string) {
    |s| >= 2 && ((s[0] == '"' && s[|s| - 1] == '"') || (s[0] == '\'' && s[|s| - 1] == '\''))
  }

  function EvalValue(read: FloatReader, expr: string, context: Context): Value {
    var e := Trim(expr);
    if e == "true" then Ok(Bool(true))
    else if e == "false" then Ok(Bool(false))
    else if e == "null" || e == "None" then Ok(Null)
    else if IsQuoted(e) then Ok(Str(e[1..|e| - 1]))
    else if ParseI64(e).Some? then Ok(Int(ParseI64(e).value))
    else if read(e).Some? then Ok(Float(read(e).value))
    else
      var parts := Split(e, '.');
      if parts[0] in context then WalkFields(e, context[parts[0]], parts[1..])
      else Err(UnknownReference(e))
  }

  function IsEmptyValue(v: ExprValue): bool {
    match v
    case Str(s) => s == ""
    case List(items) => items == []
    case Map(fields) => fields == map[]
    case Null => true
    case _ => false
  }

  // ---- Operators, loosest first ----

  const OPS := ["||", "&&", "==", "!=", ">=", "<=", ">", "<"]

  type Level = k: nat | k < |OPS| witness 0

  function Separator(k: Level): string {
    " " + OPS[k] + " "
  }

  function ApplyOp(read: FloatReader, k: Level, left: ExprValue, right: ExprValue): Value {
    var op := OPS[k];
    if op == "||" then Ok(Bool(ToBool(left) || ToBool(right)))
    else if op == "&&" then Ok(Bool(ToBool(left) && ToBool(right)))
    else if op == "==" then Ok(Bool(Equals(left, right)))
    else if op == "!=" then Ok(Bool(!Equals(left, right)))
    else
      match Compare(read, left, right)
      case Err(e) => Err(e)
      case Ok(c) =>
        Ok(Bool(if op == ">" then c > 0 else if op == "<" then c < 0 else if op == ">=" then c >= 0 else c <= 0))
  }

  // Both operands are evaluated before either is looked at; the left one's error comes first.
  function Combine(read: FloatReader, op: Level, left: Value, right: Value): Value {
    match (left, right)
    case (Err(err), _) => Err(err)
    case (_, Err(err)) => Err(err)
    case (Ok(l), Ok(r)) => ApplyOp(read, op, l, r)
  }

  // ---- The evaluator ----

  // The loop over comparison operators: the first one, in this order, that occurs at all.
  function FirstComparison(e: string, k: nat): (r: Option<(Level, nat)>)
    requires 2 <= k <= |OPS|
    ensures r.Some? ==> k <= r.value.0 && r.value.1 + |Separator(r.value.0)| <= |e|
    decreases |OPS| - k
  {
    if k == |OPS| then None
    else
      match Find(e, Separator(k), 0)
      case Some(idx) => Some((k, idx))
      case None => FirstComparison(e, k + 1)
  }

  function TryKeywordOp(read: FloatReader, e: string, context: Context): Option<Value> {
    if EndsWith(e, " exists") then
      var v := EvalValue(read, Trim(e[..|e| - |" exists"|]), context);
      Some(Ok(Bool(v.Ok? && !v.value.Null?)))
    else if EndsWith(e, " is empty") then
      match EvalValue(read, Trim(e[..|e| - |" is empty"|]), context)
      case Err(err) => Some(Err(err))
      case Ok(v) => Some(Ok(Bool(IsEmptyValue(v))))
    else None
  }

  // The operator an expression is split at, with the text on either side.
  datatype Cut = Cut(op: Level, left: string, right: string)

  function CutAt(e: string, op: Level, idx: nat): Cut
    requires idx + |Separator(op)| <= |e|
  {
    Cut(op, e[..idx], e[idx + |Separator(op)|..])
  }

  // `||` at its last occurrence, else `&&` at its last, else a comparison at its first.
  function SplitExpr(e: string): (r: Option<Cut>)
    ensures r.Some? ==> |r.value.left| < |e| && |r.value.right| < |e|
  {
    var or, and := RFind(e, Separator(0)), RFind(e, Separator(1));
    if or.Some? then Some(CutAt(e, 0, or.value))
    else if and.Some? then Some(CutAt(e, 1, and.value))
    else
      match FirstComparison(e, 2)
      case None => None
      case Some((k, idx)) =>
        var cut := CutAt(e, k, idx);
        Some(Cut(k, Trim(cut.left), Trim(cut.right)))
  }

  // Keywords, else a plain value.
  function EvalLeaf(read: FloatReader, e: string, context: Context): Value {
    match TryKeywordOp(read, e, context)
    case Some(v) => v
    case None => EvalValue(read, e, context)
  }

  // `eval_expr`: split at an operator, else `!`, else a leaf.
  function EvalExpr(read: FloatReader, expr: string, context: Context): Value
    decreases |expr|
  {
    var e := Trim(expr);
    match SplitExpr(e)
    case Some(cut) => Combine(read, cut.op, EvalExpr(read, cut.left, context), EvalExpr(read, cut.right, context))
    case None =>
      if e != "" && e[0] == '!' then
        match EvalExpr(read, e[1..], context)
        case Err(err) => Err(err)
        case Ok(v) => Ok(Bool(!ToBool(v)))
      else EvalLeaf(read, e, context)
  }

  // `evaluate`
  function Evaluate(read: FloatReader, expr: string, context: Context): Value {
    if Trim(expr) == "" then Ok(Bool(true)) else EvalExpr(read, Trim(expr), context)
  }

  // ---- Trees ----

  datatype Tree =
    | Bin(op: Level, left: Tree, right: Tree)
    | Not(operand: Tree)
    | Exists(reference: string)
    | IsEmpty(reference: string)
    | Atom(text: string)

  /** What a tree means: both operands are always evaluated, and the leftmost error wins. */
  function Meaning(read: FloatReader, t: Tree, context: Context): Value {
    match t
    case Bin(op, left, right) => Combine(read, op, Meaning(read, left, context), Meaning(read, right, context))
    case Not(operand) =>
      (match Meaning(read, operand, context)
       case Err(err) => Err(err)
       case Ok(v) => Ok(Bool(!ToBool(v))))
    case Exists(reference) =>
      var v := EvalValue(read, reference, context);
      Ok(Bool(v.Ok? && !v.value.Null?))
    case IsEmpty(reference) =>
      (match EvalValue(read, reference, context)
       case Err(err) => Err(err)
       case Ok(v) => Ok(Bool(IsEmptyValue(v))))
    case Atom(text) => EvalValue(read, text, context)
  }

  function Print(t: Tree): string {
    match t
    case Bin(op, left, right) => Print(left) + Separator(op) + Print(right)
    case Not(operand) => "!" + Print(operand)
    case Exists(reference) => reference + " exists"
    case IsEmpty(reference) => reference + " is empty"
    case Atom(text) => text
  }

  // How tightly the outermost operator binds.
  function Binding(t: Tree): nat {
    if t.Bin? then t.op else |OPS|
  }

  // A reference reads as one word: no operator stands in it between blanks or at its ends.
  ghost predicate IsWord(text: string) {
    && text != "" && !IsSpace(text[0]) && !IsSpace(text[|text| - 1])
    && text[0] != '!' && text[0] != '='
    && forall k: Level :: !HoldsOp(text, k)
  }

  ghost predicate HoldsOp(text: string, k: Level) {
    exists i :: 0 <= i <= |text| + 2 && Occurs(" " + text + " ", Separator(k), i)
  }

  /**
    Trees that need no parentheses: logical operators group to the left, comparisons to the
    right, a negation holds no binary operator, and leaves are words.
   */
  ghost predicate Printable(t: Tree) {
    match t
    case Bin(op, left, right) =>
      && Printable(left) && Printable(right)
      && (if op < 2 then op <= Binding(left) && op < Binding(right) else op < Binding(left) && op <= Binding(right))
    case Not(operand) => Printable(operand) && !operand.Bin?
    case Exists(reference) => IsWord(reference)
    case IsEmpty(reference) => IsWord(reference)
    case Atom(text) => IsWord(text) && !EndsWith(text, " exists") && !EndsWith(text, " is empty")
  }

  function ParseLeaf(e: string): Tree {
    if EndsWith(e, " exists") then Exists(Trim(e[..|e| - |" exists"|]))
    else if EndsWith(e, " is empty") then IsEmpty(Trim(e[..|e| - |" is empty"|]))
    else Atom(e)
  }

  // The tree any text stands for.
  function Parse(expr: string): Tree
    decreases |expr|
  {
    var e := Trim(expr);
    match SplitExpr(e)
    case Some(cut) => Bin(cut.op, Parse(cut.left), Parse(cut.right))
    case None =>
      if e != "" && e[0] == '!' then Not(Parse(e[1..]))
      else ParseLeaf(e)
  }

  lemma CutMeaning(read: FloatReader, expr: string, context: Context, cut: Cut)
    requires SplitExpr(Trim(expr)) == Some(cut)
    requires EvalExpr(read, cut.left, context) == Meaning(read, Parse(cut.left), context)
    requires EvalExpr(read, cut.right, context) == Meaning(read, Parse(cut.right), context)
    ensures EvalExpr(read, expr, context) == Meaning(read, Parse(expr), context)
  {
    assert Parse(expr) == Bin(cut.op, Parse(cut.left), Parse(cut.right));
  }

  /** The evaluator computes, on every text whatever, the meaning of the tree it stands for. */
  lemma {:induction false} EvalIsMeaning(read: FloatReader, expr: string, context: Context)
    ensures EvalExpr(read, expr, context) == Meaning(read, Parse(expr), context)
    decreases |expr|
  {
    var e := Trim(expr);
    var cut := SplitExpr(e);
    if cut.Some? {
      EvalIsMeaning(read, cut.value.left, context);
      EvalIsMeaning(read, cut.value.right, context);
      CutMeaning(read, expr, context, cut.value);
    } else if e != "" && e[0] == '!' {
      EvalIsMeaning(read, e[1..], context);
      assert Parse(expr) == Not(Parse(e[1..]));
    } else {
      LeafMeaning(read, e, context);
    }
  }

  lemma LeafMeaning(read: FloatReader, e: string, context: Context)
    ensures EvalLeaf(read, e, context) == Meaning(read, ParseLeaf(e), context)
  {
  }

  // ---- Printing, then parsing ----

  lemma OpsAreWords(k: Level)
    ensures OPS[k] != "" && ' ' !in OPS[k] && |Separator(k)| == |OPS[k]| + 2
    ensures OPS[k][0] in "|&=!><"
  {
  }

  lemma SeparatorAt(s: string, k: Level, i: nat)
    requires Occurs(s, Separator(k), i)
    ensures s[i] == ' ' && s[i + |OPS[k]| + 1] == ' '
    ensures s[i + 1..i + 1 + |OPS[k]|] == OPS[k]
    ensures forall j :: i < j <= i + |OPS[k]| ==> s[j] != ' '
  {
    var sep := Separator(k);
    OpsAreWords(k);
    assert s[i..i + |sep|] == sep;
    assert s[i] == sep[0] && s[i + |OPS[k]| + 1] == sep[|OPS[k]| + 1];
    forall j | i < j <= i + |OPS[k]| ensures s[j] == OPS[k][j - i - 1] {
      assert s[j] == sep[j - i];
    }
  }

  // Where an operator can stand in `a`, a word, `b`: in `a`, in `b`, or it is the word.
  lemma Sandwich(a: string, word: string, b: string, k: Level, i: nat)
    requires a != "" && a[|a| - 1] == ' ' && b != "" && b[0] == ' '
    requires word != "" && ' ' !in word
    requires Occurs(a + word + b, Separator(k), i)
    ensures || Occurs(a, Separator(k), i)
            || (i >= |a| + |word| && Occurs(b, Separator(k), i - |a| - |word|))
            || (i == |a| - 1 && OPS[k] == word)
  {
    var s, m := a + word + b, |Separator(k)|;
    OpsAreWords(k);
    SeparatorAt(s, k, i);
    var last := |a| - 1;
    assert s[last] == ' ' && s[|a| + |word|] == ' ';
    assert forall j :: |a| <= j < |a| + |word| ==> s[j] == word[j - |a|];
    if i + m <= |a| {
      assert a[i..i + m] == s[i..i + m];
    } else if i >= |a| + |word| {
      var shift := |a| + |word|;
      assert b[i - shift..i - shift + m] == s[i..i + m];
    } else {
      assert i == last;
      assert i + m - 1 == |a| + |word|;
      assert s[i + 1..i + 1 + |OPS[k]|] == word;
    }
  }

  // An operator in the text itself is an operator in the padded text.
  lemma Padded(text: string, k: Level, i: nat)
    requires Occurs(text, Separator(k), i)
    ensures Occurs(" " + text + " ", Separator(k), i + 1) && HoldsOp(text, k)
  {
    var m := |Separator(k)|;
    var padded := " " + text + " ";
    assert padded[i + 1..i + 1 + m] == text[i..i + m];
    assert Occurs(padded, Separator(k), i + 1);
  }

  lemma {:induction false} PrintEdges(t: Tree)
    requires Printable(t)
    ensures var p := Print(t); p != "" && !IsSpace(p[0]) && p[0] != '=' && !IsSpace(p[|p| - 1])
    ensures !t.Bin? && !t.Not? ==> Print(t)[0] != '!'
  {
    match t
    case Bin(op, left, right) => PrintEdges(left); PrintEdges(right);
    case Not(operand) => PrintEdges(operand);
    case _ =>
  }

  lemma BinPads(op: Level, left: string, right: string)
    ensures " " + (left + Separator(op) + right) + " " == (" " + left + " ") + OPS[op] + (" " + right + " ")
  {
  }

  lemma BinHolds(op: Level, left: string, right: string, k: Level, i: nat)
    requires Occurs(" " + (left + Separator(op) + right) + " ", Separator(k), i)
    ensures || (i < |left| + 1 && HoldsOp(left, k)) || (i > |left| + 1 && HoldsOp(right, k)) || (i == |left| + 1 && k == op)
  {
    var a, b := " " + left + " ", " " + right + " ";
    OpsAreWords(op);
    BinPads(op, left, right);
    Sandwich(a, OPS[op], b, k, i);
    OpsDiffer(op, k);
    OpsAreWords(k);
  }

  lemma OpsDiffer(j: Level, k: Level)
    ensures OPS[j] == OPS[k] ==> j == k
  {
  }

  lemma SuffixHolds(text: string, word: string, k: Level)
    requires word != "" && ' ' !in word && HoldsOp(text + " " + word, k)
    ensures HoldsOp(text, k) || OPS[k] == word
  {
    var whole := " " + (text + " " + word) + " ";
    var i: nat :| i <= |text + " " + word| + 2 && Occurs(whole, Separator(k), i);
    PadSuffix(text, word);
    Sandwich(" " + text + " ", word, " ", k, i);
  }

  lemma PadSuffix(text: string, word: string)
    ensures " " + (text + " " + word) + " " == (" " + text + " ") + word + " "
  {
  }

  lemma NegationHolds(text: string, k: Level)
    requires text != "" && text[0] != '=' && HoldsOp("!" + text, k)
    ensures HoldsOp(text, k)
  {
    var whole := " " + ("!" + text) + " ";
    var i: nat :| i <= |"!" + text| + 2 && Occurs(whole, Separator(k), i);
    assert whole == [' ', '!', text[0]] + (text[1..] + " ");
    if i < 2 {
      NotAtBang(text[0], text[1..] + " ", k, i);
    } else {
      var m := |Separator(k)|;
      assert (" " + text + " ")[i - 1..i - 1 + m] == whole[i..i + m];
      assert Occurs(" " + text + " ", Separator(k), i - 1);
    }
  }

  lemma NotAtBang(c: char, rest: string, k: Level, i: nat)
    requires c != '=' && i < 2
    ensures !Occurs([' ', '!', c] + rest, Separator(k), i)
  {
    var s := [' ', '!', c] + rest;
    assert s[0] == ' ' && s[1] == '!' && s[2] == c;
    OpsAreWords(k);
    NotBangBlank(k, c);
    if Occurs(s, Separator(k), i) {
      SeparatorAt(s, k, i);
    }
  }

  // The one operator that starts with `!` goes on with `=`.
  lemma NotBangBlank(k: Level, c: char)
    requires c != '='
    ensures OPS[k][0] == '!' ==> |OPS[k]| == 2 && OPS[k][1] != c
  {
  }

  // No operator looser than the outermost one can be seen in the printed text.
  lemma {:induction false} NoLooserOp(t: Tree, k: Level)
    requires Printable(t) && k < Binding(t)
    ensures !HoldsOp(Print(t), k)
  {
    match t
    case Bin(op, left, right) =>
      NoLooserOp(left, k);
      NoLooserOp(right, k);
      if HoldsOp(Print(t), k) {
        var i: nat :| i <= |Print(t)| + 2 && Occurs(" " + Print(t) + " ", Separator(k), i);
        BinHolds(op, Print(left), Print(right), k, i);
      }
    case Not(operand) =>
      NoLooserOp(operand, k);
      PrintEdges(operand);
      if HoldsOp(Print(t), k) {
        NegationHolds(Print(operand), k);
      }
    case Exists(reference) =>
      if HoldsOp(Print(t), k) {
        assert Print(t) == reference + " " + "exists";
        SuffixHolds(reference, "exists", k);
      }
    case IsEmpty(reference) =>
      if HoldsOp(Print(t), k) {
        assert Print(t) == (reference + " " + "is") + " " + "empty";
        SuffixHolds(reference + " " + "is", "empty", k);
        SuffixHolds(reference, "is", k);
      }
    case Atom(_) =>
  }

  lemma NotSeen(text: string, k: Level)
    requires !HoldsOp(text, k)
    ensures RFind(text, Separator(k)).None? && Find(text, Separator(k), 0).None?
  {
    forall i: nat ensures !Occurs(text, Separator(k), i) {
      if Occurs(text, Separator(k), i) {
        Padded(text, k, i);
      }
    }
    FindIsFirst(text, Separator(k), 0);
    RFindIsLastBelow(text, Separator(k), |text| + 1);
  }

  lemma BinOccurs(op: Level, left: string, right: string)
    ensures Occurs(left + Separator(op) + right, Separator(op), |left|)
  {
  }

  // The last occurrence of a logical operator is the outermost one's.
  lemma LastIsOutermost(t: Tree)
    requires Printable(t) && t.Bin? && t.op < 2
    ensures RFind(Print(t), Separator(t.op)) == Some(|Print(t.left)|)
  {
    var left, right := Print(t.left), Print(t.right);
    BinOccurs(t.op, left, right);
    var found := RFind(Print(t), Separator(t.op));
    RFindIsLastBelow(Print(t), Separator(t.op), |Print(t)| + 1);
    assert |left| < |Print(t)| + 1;
    if found.Some? && found.value > |left| {
      Padded(Print(t), t.op, found.value);
      BinHolds(t.op, left, right, t.op, found.value + 1);
      NoLooserOp(t.right, t.op);
    }
  }

  // The first occurrence of a comparison is the outermost one's.
  lemma FirstIsOutermost(t: Tree)
    requires Printable(t) && t.Bin? && t.op >= 2
    ensures Find(Print(t), Separator(t.op), 0) == Some(|Print(t.left)|)
  {
    var left, right := Print(t.left), Print(t.right);
    BinOccurs(t.op, left, right);
    var found := Find(Print(t), Separator(t.op), 0);
    FindIsFirst(Print(t), Separator(t.op), 0);
    if found.Some? && found.value < |left| {
      Padded(Print(t), t.op, found.value);
      BinHolds(t.op, left, right, t.op, found.value + 1);
      NoLooserOp(t.left, t.op);
    }
  }

  lemma AllLooserUnseen(t: Tree)
    requires Printable(t)
    ensures LooserUnseen(Print(t), Binding(t))
  {
    forall k: Level | k < Binding(t)
      ensures RFind(Print(t), Separator(k)).None? && Find(Print(t), Separator(k), 0).None?
    {
      NoLooserOp(t, k);
      NotSeen(Print(t), k);
    }
  }

  lemma CutBetween(op: Level, left: string, right: string)
    ensures CutAt(left + Separator(op) + right, op, |left|) == Cut(op, left, right)
  {
    var e := left + Separator(op) + right;
    assert e[..|left|] == left && e[|left| + |Separator(op)|..] == right;
  }

  ghost predicate LooserUnseen(e: string, op: nat) {
    forall k: Level :: k < op ==> RFind(e, Separator(k)).None? && Find(e, Separator(k), 0).None?
  }

  lemma CutAtLogical(e: string, op: Level, left: string, right: string)
    requires e == left + Separator(op) + right && LooserUnseen(e, op)
    requires op < 2 && RFind(e, Separator(op)) == Some(|left|)
    ensures SplitExpr(e) == Some(Cut(op, left, right))
  {
    CutBetween(op, left, right);
    assert op == 1 ==> RFind(e, Separator(0)).None?;
  }

  lemma CutAtComparison(e: string, op: Level, left: string, right: string)
    requires e == left + Separator(op) + right && LooserUnseen(e, op)
    requires op >= 2 && Find(e, Separator(op), 0) == Some(|left|)
    requires Trim(left) == left && Trim(right) == right
    ensures SplitExpr(e) == Some(Cut(op, left, right))
  {
    CutBetween(op, left, right);
    assert RFind(e, Separator(0)).None? && RFind(e, Separator(1)).None?;
    FirstSeen(e, 2, op);
  }

  lemma {:induction false} FirstSeen(e: string, k: nat, op: Level)
    requires 2 <= k <= op && LooserUnseen(e, op) && Find(e, Separator(op), 0).Some?
    ensures FirstComparison(e, k) == Some((op, Find(e, Separator(op), 0).value))
    decreases op - k
  {
    if k < op {
      FirstSeen(e, k + 1, op);
    }
  }

  lemma {:induction false} NoneSeen(e: string, k: nat)
    requires 2 <= k <= |OPS| && LooserUnseen(e, |OPS|)
    ensures FirstComparison(e, k).None?
    decreases |OPS| - k
  {
    if k < |OPS| {
      NoneSeen(e, k + 1);
    }
  }

  lemma NoCut(e: string)
    requires LooserUnseen(e, |OPS|)
    ensures SplitExpr(e).None?
  {
    assert RFind(e, Separator(0)).None? && RFind(e, Separator(1)).None?;
    NoneSeen(e, 2);
  }

  // A printed tree is cut at its outermost operator.
  lemma SplitsAtRoot(t: Tree)
    requires Printable(t)
    ensures t.Bin? ==> SplitExpr(Print(t)) == Some(Cut(t.op, Print(t.left), Print(t.right)))
    ensures !t.Bin? ==> SplitExpr(Print(t)).None?
  {
    AllLooserUnseen(t);
    if !t.Bin? {
      NoCut(Print(t));
    } else if t.op < 2 {
      LastIsOutermost(t);
      CutAtLogical(Print(t), t.op, Print(t.left), Print(t.right));
    } else {
      PrintEdges(t.left);
      PrintEdges(t.right);
      FirstIsOutermost(t);
      CutAtComparison(Print(t), t.op, Print(t.left), Print(t.right));
    }
  }

  lemma KeywordSuffix(reference: string, keyword: string)
    requires IsWord(reference) && keyword in [" exists", " is empty"]
    ensures EndsWith(reference + keyword, keyword)
    ensures (reference + keyword)[..|reference + keyword| - |keyword|] == reference
    ensures EndsWith(reference + keyword, " exists") <==> keyword == " exists"
  {
    var s := reference + keyword;
    assert s[|s| - |keyword|..] == keyword;
    if keyword == " is empty" {
      assert s[|s| - 1] == 'y';
      assert s[|s| - |" exists"|..][|" exists"| - 1] == s[|s| - 1];
    }
  }

  lemma ParsesBin(p: string, op: Level, left: string, right: string)
    requires Trim(p) == p && SplitExpr(p) == Some(Cut(op, left, right))
    ensures |left| < |p| && |right| < |p| && Parse(p) == Bin(op, Parse(left), Parse(right))
  {
  }

  lemma ParsesNot(p: string)
    requires p != "" && Trim("!" + p) == "!" + p && SplitExpr("!" + p).None?
    ensures Parse("!" + p) == Not(Parse(p))
  {
    assert ("!" + p)[1..] == p;
  }

  lemma ParsesLeaf(t: Tree)
    requires Printable(t) && !t.Bin? && !t.Not?
    requires Trim(Print(t)) == Print(t) && SplitExpr(Print(t)).None? && Print(t)[0] != '!'
    ensures Parse(Print(t)) == t
  {
    match t
    case Exists(reference) => KeywordSuffix(reference, " exists");
    case IsEmpty(reference) => KeywordSuffix(reference, " is empty");
    case Atom(_) =>
  }

  /** Round trip: a printable tree is what its printed text parses to. */
  lemma {:induction false} ParsePrint(t: Tree)
    requires Printable(t)
    ensures Parse(Print(t)) == t
  {
    PrintEdges(t);
    SplitsAtRoot(t);
    match t {
      case Bin(op, left, right) =>
        ParsesBin(Print(t), op, Print(left), Print(right));
        ParsePrint(left);
        ParsePrint(right);
      case Not(operand) =>
        PrintEdges(operand);
        ParsesNot(Print(operand));
        ParsePrint(operand);
      case _ => ParsesLeaf(t);
    }
  }

  /** Evaluating the printed text of a tree gives the tree's meaning. */
  lemma EvaluatePrint(read: FloatReader, t: Tree, context: Context)
    requires Printable(t)
    ensures Evaluate(read, Print(t), context) == Meaning(read, t, context)
  {
    PrintEdges(t);
    ParsePrint(t);
    EvalIsMeaning(read, Print(t), context);
  }
}
