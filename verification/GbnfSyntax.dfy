/** GBNF as it is written: how the parts of an expression are put together to a text, and that the text reads back. */
module GbnfSyntax {
  import opened Wrappers
  import opened Gbnf
  import opened GbnfReader

  /** A written expression. A terminal has a text of its own; a mark stands for the bounds of a repetition. */
  datatype Syntax =
    | Nothing
    | Term(expr: Expr, text: string)
    | Named(name: Name)
    | Paren(padded: bool, body: Syntax)
    | Marked(item: Syntax, bounds: Bounds, mark: string)
    | Seq(left: Syntax, right: Syntax)
    | Or(left: Syntax, right: Syntax)
    | Bar(other: Syntax)

  function TextOf(x: Syntax): string {
    match x
    case Nothing => ""
    case Term(_, text) => text
    case Named(name) => name
    case Paren(padded, body) => if padded then "( " + (TextOf(body) + " )") else "(" + (TextOf(body) + ")")
    case Marked(item, _, mark) => TextOf(item) + mark
    case Seq(left, right) => TextOf(left) + (" " + TextOf(right))
    case Or(left, right) => TextOf(left) + (" | " + TextOf(right))
    case Bar(other) => "| " + TextOf(other)
  }

  /** What is meant. */
  function Meant(x: Syntax): Expr {
    match x
    case Nothing => Empty
    case Term(expr, _) => expr
    case Named(name) => Ref(name)
    case Paren(_, body) => Group(Meant(body))
    case Marked(item, bounds, _) => Rep(Meant(item), bounds.min, bounds.max)
    case Seq(left, right) => Cat(Meant(left), Meant(right))
    case Or(left, right) => Alt(Meant(left), Meant(right))
    case Bar(other) => Alt(Empty, Meant(other))
  }

  // ---------------------------------------------------------------------------------------------
  // What is well written

  // What is found at a place is looked into only where the place is named with `Here`.

  predicate Here(pos: nat) {
    true
  }

  ghost predicate TextAt(src: string, pos: nat, t: string) {
    forall p: nat {:trigger Here(p)} :: Here(p) && p == pos ==> p + |t| <= |src| && src[p..p + |t|] == t
  }

  /** At this place the text reads as the terminal. */
  ghost predicate TermRead(expr: Expr, text: string, src: string, pos: nat)
    requires text != "" && StartsTerminal(text[0])
  {
    TextAt(src, pos, text) ==> At(src, pos) == text[0] && forall nested ::
      ReadTerminal(src, pos, nested) == Success((expr, SpaceEnd(src, pos + |text|, nested)))
  }

  ghost predicate GoodTerm(expr: Expr, text: string) {
    && text != ""
    && StartsTerminal(text[0])
    && forall src, pos: nat {:trigger TermRead(expr, text, src, pos)} :: TermRead(expr, text, src, pos)
  }

  ghost predicate MarkRead(bounds: Bounds, mark: string, src: string, pos: nat)
    requires mark != "" && IsMark(mark[0])
  {
    TextAt(src, pos, mark) ==> At(src, pos) == mark[0] && forall nested ::
      ReadMark(src, pos, nested) == Success((bounds, SpaceEnd(src, pos + |mark|, nested)))
  }

  ghost predicate GoodMark(bounds: Bounds, mark: string) {
    && mark != ""
    && IsMark(mark[0])
    && forall src, pos: nat {:trigger MarkRead(bounds, mark, src, pos)} :: MarkRead(bounds, mark, src, pos)
  }

  predicate IsWord(name: Name) {
    name != "" && forall i :: 0 <= i < |name| ==> IsWordChar(name[i])
  }

  ghost predicate IsItem(x: Syntax)
    decreases x, 0
  {
    match x
    case Term(expr, text) => GoodTerm(expr, text)
    case Named(name) => IsWord(name)
    case Paren(_, body) => body.Nothing? || IsAlternates(body)
    case Marked(item, bounds, mark) => IsItem(item) && Emits(ItemExpr(item)) && GoodMark(bounds, mark)
    case _ => false
  }

  ghost predicate IsSequence(x: Syntax)
    decreases x, 1
  {
    match x
    case Seq(left, right) => IsSequence(left) && IsSequence(right)
    case _ => IsItem(x)
  }

  ghost predicate IsAlternates(x: Syntax)
    decreases x, 2
  {
    match x
    case Or(left, right) => IsAlternates(left) && IsSequence(right)
    case Bar(other) => IsSequence(other)
    case _ => IsSequence(x)
  }

  // ---------------------------------------------------------------------------------------------
  // What is read

  function ItemExpr(x: Syntax): Expr
    decreases x, 0
  {
    match x
    case Term(expr, _) => expr
    case Named(name) => Ref(name)
    case Paren(_, body) => Group(AlternatesExpr(body))
    case Marked(item, bounds, _) => Rep(ItemExpr(item), bounds.min, bounds.max)
    case _ => Empty
  }

  /** The sequence `acc` with the items of `x` put after it. */
  function SequenceExpr(acc: Expr, x: Syntax): Expr
    decreases x, 1
  {
    match x
    case Nothing => acc
    case Seq(left, right) => SequenceExpr(SequenceExpr(acc, left), right)
    case _ => Cat(acc, ItemExpr(x))
  }

  function AlternatesExpr(x: Syntax): Expr
    decreases x, 2
  {
    match x
    case Or(left, right) => Alt(AlternatesExpr(left), SequenceExpr(Empty, right))
    case Bar(other) => Alt(Empty, SequenceExpr(Empty, other))
    case _ => SequenceExpr(Empty, x)
  }

  // ---------------------------------------------------------------------------------------------
  // Where the parts of a text are

  lemma TextParts(src: string, pos: nat, t: string, a: string, b: string)
    requires TextAt(src, pos, t) && t == a + b
    ensures TextAt(src, pos, a) && TextAt(src, pos + |a|, b)
  {
    assert Here(pos);
    var u := src[pos..pos + |t|];
    assert u[..|a|] == a && u[|a|..] == b;
    assert src[pos..pos + |a|] == u[..|a|];
    assert src[pos + |a|..pos + |a| + |b|] == u[|a|..];
  }

  lemma TextChar(src: string, pos: nat, t: string, i: nat)
    requires TextAt(src, pos, t) && i < |t|
    ensures At(src, pos + i) == t[i]
  {
    assert Here(pos);
    assert src[pos..pos + |t|][i] == src[pos + i];
  }

  predicate Solid(c: char) {
    c != ' ' && c != '\t' && c != '#' && !IsNewline(c)
  }

  lemma NoSpace(src: string, pos: nat, newlineOk: bool)
    requires Solid(At(src, pos))
    ensures SpaceEnd(src, pos, newlineOk) == pos
  {
  }

  lemma OneSpace(src: string, pos: nat, newlineOk: bool)
    requires At(src, pos) == ' '
    ensures SpaceEnd(src, pos, newlineOk) == SpaceEnd(src, pos + 1, newlineOk)
  {
  }

  lemma {:induction false} FirstOfSequence(x: Syntax)
    requires IsSequence(x)
    ensures TextOf(x) != "" && Solid(TextOf(x)[0])
  {
    if x.Seq? {
      FirstOfSequence(x.left);
    } else {
      assert IsItem(x);
      if x.Marked? {
        var item := x.item;
        assert IsItem(item);
        assert IsSequence(item);
        FirstOfSequence(item);
      }
    }
  }

  lemma {:induction false} FirstOfAlternates(x: Syntax)
    requires IsAlternates(x)
    ensures TextOf(x) != "" && Solid(TextOf(x)[0])
  {
    if x.Or? {
      FirstOfAlternates(x.left);
    } else if !x.Bar? {
      FirstOfSequence(x);
    }
  }

  lemma SequenceIsAlternates(x: Syntax)
    requires IsSequence(x)
    ensures IsAlternates(x)
  {
    assert x.Or? || x.Bar? ==> !IsItem(x);
  }

  lemma FirstAt(src: string, pos: nat, x: Syntax)
    requires IsAlternates(x) && TextAt(src, pos, TextOf(x))
    ensures Solid(At(src, pos))
  {
    FirstOfAlternates(x);
    TextChar(src, pos, TextOf(x), 0);
  }

  /** A blank between two parts. */
  lemma Between(src: string, pos: nat, t: string, a: string, b: Syntax, nested: bool) returns (next: nat)
    requires IsSequence(b) && TextAt(src, pos, t) && t == a + (" " + TextOf(b))
    ensures next == pos + |a| + 1 && TextAt(src, pos, a) && TextAt(src, next, TextOf(b))
    ensures At(src, pos + |a|) == ' ' && SpaceEnd(src, pos + |a|, nested) == next
  {
    next := pos + |a| + 1;
    TextParts(src, pos, t, a, " " + TextOf(b));
    TextParts(src, pos + |a|, " " + TextOf(b), " ", TextOf(b));
    TextChar(src, pos + |a|, " ", 0);
    SequenceIsAlternates(b);
    FirstAt(src, next, b);
    NoSpace(src, next, nested);
    OneSpace(src, pos + |a|, nested);
  }

  /** A bar between two alternatives. */
  lemma AroundBar(src: string, pos: nat, t: string, a: string, b: Syntax, nested: bool) returns (bar: nat, next: nat)
    requires IsSequence(b) && TextAt(src, pos, t) && t == a + (" | " + TextOf(b))
    ensures TextAt(src, pos, a) && TextAt(src, next, TextOf(b)) && next + |TextOf(b)| == pos + |t|
    ensures At(src, pos + |a|) == ' ' && SpaceEnd(src, pos + |a|, nested) == bar
    ensures At(src, bar) == '|' && SpaceEnd(src, bar + 1, true) == next
  {
    bar, next := pos + |a| + 1, pos + |a| + 3;
    TextParts(src, pos, t, a, " | " + TextOf(b));
    TextParts(src, pos + |a|, " | " + TextOf(b), " | ", TextOf(b));
    SequenceIsAlternates(b);
    FirstAt(src, next, b);
    BarAt(src, pos + |a|, nested);
  }

  lemma BarAt(src: string, pos: nat, nested: bool)
    requires TextAt(src, pos, " | ") && Solid(At(src, pos + 3))
    ensures At(src, pos) == ' ' && SpaceEnd(src, pos, nested) == pos + 1
    ensures At(src, pos + 1) == '|' && SpaceEnd(src, pos + 2, true) == pos + 3
  {
    TextChar(src, pos, " | ", 0);
    TextChar(src, pos, " | ", 1);
    TextChar(src, pos, " | ", 2);
    NoSpace(src, pos + 3, true);
    OneSpace(src, pos + 2, true);
    NoSpace(src, pos + 1, nested);
    OneSpace(src, pos, nested);
  }

  lemma NameEndAt(src: string, pos: nat, end: nat)
    requires pos <= end <= |src| && (forall i :: pos <= i < end ==> IsWordChar(src[i])) && !IsWordChar(At(src, end))
    ensures NameEnd(src, pos) == end
    decreases end - pos
  {
    if pos < end {
      NameEndAt(src, pos + 1, end);
    }
  }

  lemma NameAt(src: string, pos: nat, name: Name)
    requires IsWord(name) && TextAt(src, pos, name) && !IsWordChar(At(src, pos + |name|))
    ensures IsWordChar(At(src, pos)) && NameEnd(src, pos) == pos + |name|
  {
    assert Here(pos);
    forall i | pos <= i < pos + |name|
      ensures IsWordChar(src[i])
    {
      assert src[pos..pos + |name|][i - pos] == src[i];
    }
    NameEndAt(src, pos, pos + |name|);
  }

  // ---------------------------------------------------------------------------------------------
  // Steps of the reader

  ghost predicate ItemRead(src: string, pos: nat, nested: bool, item: Expr, end: nat) {
    forall p: nat {:trigger Here(p)} :: Here(p) && p == pos ==>
      StartsItem(At(src, p)) && ReadItem(src, p, nested) == Success((item, end))
  }

  /** From `pos` the reader of a sequence gets to `end`, with `acc'` read. */
  ghost predicate Leads(src: string, pos: nat, nested: bool, acc: Expr, end: nat, acc': Expr) {
    forall p: nat {:trigger Here(p)} :: Here(p) && p == pos ==>
      ReadSequence(src, p, nested, acc) == ReadSequence(src, end, nested, acc')
  }

  lemma ItemLeads(src: string, pos: nat, nested: bool, acc: Expr, item: Expr, end: nat)
    requires ItemRead(src, pos, nested, item, end)
    ensures Leads(src, pos, nested, acc, end, Cat(acc, item))
  {
    assert Here(pos);
  }

  lemma MarkLeads(src: string, pos: nat, nested: bool, acc: Expr, item: Expr, bounds: Bounds, end: nat)
    requires IsMark(At(src, pos)) && ReadMark(src, pos, nested) == Success((bounds, end)) && Emits(item)
    ensures Leads(src, pos, nested, Cat(acc, item), end, Cat(acc, Rep(item, bounds.min, bounds.max)))
  {
  }

  lemma LeadsOn(src: string, pos: nat, nested: bool, acc: Expr, mid: nat, acc': Expr, end: nat, acc'': Expr)
    requires Leads(src, pos, nested, acc, mid, acc') && Leads(src, mid, nested, acc', end, acc'')
    ensures Leads(src, pos, nested, acc, end, acc'')
  {
    assert Here(pos) && Here(mid);
  }

  ghost predicate SequenceEnds(src: string, pos: nat) {
    !StartsItem(At(src, pos)) && !IsMark(At(src, pos))
  }

  lemma SequenceLeads(src: string, pos: nat, nested: bool, acc: Expr, end: nat, acc': Expr)
    requires Leads(src, pos, nested, acc, end, acc') && SequenceEnds(src, end)
    ensures ReadSequence(src, pos, nested, acc) == Success((acc', end))
  {
    assert Here(pos);
  }

  /** From `pos` the reader of alternatives gets to `end`, with `acc` read. */
  ghost predicate Reaches(src: string, pos: nat, nested: bool, end: nat, acc: Expr) {
    forall p: nat {:trigger Here(p)} :: Here(p) && p == pos ==>
      ReadAlternates(src, p, nested) == ReadOthers(src, end, nested, acc)
  }

  lemma FirstReaches(src: string, pos: nat, nested: bool, end: nat, acc: Expr)
    requires Leads(src, pos, nested, Empty, end, acc) && SequenceEnds(src, end)
    ensures Reaches(src, pos, nested, end, acc)
  {
    SequenceLeads(src, pos, nested, Empty, end, acc);
    assert Here(pos);
  }

  lemma OtherReaches(src: string, pos: nat, nested: bool, bar: nat, acc: Expr, next: nat, end: nat, other: Expr)
    requires Reaches(src, pos, nested, bar, acc) && At(src, bar) == '|' && SpaceEnd(src, bar + 1, true) == next
    requires Leads(src, next, nested, Empty, end, other) && SequenceEnds(src, end)
    ensures Reaches(src, pos, nested, end, Alt(acc, other))
  {
    SequenceLeads(src, next, nested, Empty, end, other);
    assert Here(pos);
  }

  lemma GroupRead(src: string, pos: nat, nested: bool, start: nat, close: nat, body: Expr)
    requires At(src, pos) == '(' && SpaceEnd(src, pos + 1, true) == start
    requires Reaches(src, start, true, close, body) && At(src, close) == ')'
    ensures ItemRead(src, pos, nested, Group(body), SpaceEnd(src, close + 1, nested))
  {
    assert Here(start);
  }

  // ---------------------------------------------------------------------------------------------
  // Reading back

  /** The text of `x` at `pos`, after which no name goes on, is read as an item, or as the items of a sequence. */
  lemma {:induction false} ReadsItem(src: string, pos: nat, nested: bool, x: Syntax)
    requires IsItem(x) && !x.Marked? && TextAt(src, pos, TextOf(x)) && !IsWordChar(At(src, pos + |TextOf(x)|))
    ensures ItemRead(src, pos, nested, ItemExpr(x), SpaceEnd(src, pos + |TextOf(x)|, nested))
    decreases x, 0
  {
    match x
    case Term(expr, text) =>
      assert TermRead(expr, text, src, pos);
    case Named(name) =>
      NameAt(src, pos, name);
    case Paren(padded, body) =>
      ReadsParen(src, pos, nested, padded, body);
  }

  /** Where the parts of a group are. */
  lemma InsideParen(src: string, pos: nat, padded: bool, body: Syntax) returns (start: nat, close: nat)
    requires TextAt(src, pos, TextOf(Paren(padded, body)))
    ensures start == pos + (if padded then 2 else 1) && TextAt(src, start, TextOf(body))
    ensures close == start + |TextOf(body)| + if padded then 1 else 0
    ensures close + 1 == pos + |TextOf(Paren(padded, body))|
    ensures At(src, pos) == '(' && At(src, close) == ')'
    ensures padded ==> At(src, pos + 1) == ' ' && At(src, close - 1) == ' '
  {
    var open, closing, t := if padded then "( " else "(", if padded then " )" else ")", TextOf(body);
    start := pos + |open|;
    TextParts(src, pos, open + (t + closing), open, t + closing);
    TextParts(src, start, t + closing, t, closing);
    TextChar(src, pos, open, 0);
    TextChar(src, start + |t|, closing, 0);
    close := start + |t|;
    if padded {
      TextChar(src, pos, open, 1);
      TextChar(src, start + |t|, closing, 1);
      close := close + 1;
    }
  }

  lemma {:induction false} ReadsParen(src: string, pos: nat, nested: bool, padded: bool, body: Syntax)
    requires (body.Nothing? || IsAlternates(body)) && TextAt(src, pos, TextOf(Paren(padded, body)))
    ensures ItemRead(src, pos, nested, Group(AlternatesExpr(body)),
                     SpaceEnd(src, pos + |TextOf(Paren(padded, body))|, nested))
    decreases body, 5
  {
    var start, close := InsideParen(src, pos, padded, body);
    NoSpace(src, close, true);
    if padded {
      OneSpace(src, close - 1, true);
      OneSpace(src, pos + 1, true);
    }
    if body.Nothing? {
      FirstReaches(src, close, true, close, Empty);
      GroupRead(src, pos, nested, close, close, Empty);
    } else {
      FirstAt(src, start, body);
      NoSpace(src, start, true);
      ReadsAlternates(src, start, true, body);
      GroupRead(src, pos, nested, start, close, AlternatesExpr(body));
    }
  }

  lemma {:induction false} ReadsItems(src: string, pos: nat, nested: bool, acc: Expr, x: Syntax)
    requires IsItem(x) && TextAt(src, pos, TextOf(x)) && !IsWordChar(At(src, pos + |TextOf(x)|))
    ensures Leads(src, pos, nested, acc, SpaceEnd(src, pos + |TextOf(x)|, nested), Cat(acc, ItemExpr(x)))
    decreases x, 1
  {
    if x.Marked? {
      var end := pos + |TextOf(x.item)|;
      TextParts(src, pos, TextOf(x), TextOf(x.item), x.mark);
      ReadsMarked(src, pos, nested, acc, x.item, end, x.bounds, x.mark);
    } else {
      ReadsItem(src, pos, nested, x);
      ItemLeads(src, pos, nested, acc, ItemExpr(x), SpaceEnd(src, pos + |TextOf(x)|, nested));
    }
  }

  lemma MarkAt(src: string, pos: nat, bounds: Bounds, mark: string)
    requires GoodMark(bounds, mark) && TextAt(src, pos, mark)
    ensures MarkRead(bounds, mark, src, pos) && IsMark(mark[0]) && !IsWordChar(At(src, pos))
  {
    assert MarkRead(bounds, mark, src, pos);
  }

  lemma {:induction false} ReadsMarked(src: string, pos: nat, nested: bool, acc: Expr, item: Syntax, end: nat,
                                       bounds: Bounds, mark: string)
    requires IsItem(item) && Emits(ItemExpr(item)) && GoodMark(bounds, mark)
    requires TextAt(src, pos, TextOf(item)) && end == pos + |TextOf(item)| && TextAt(src, end, mark)
    ensures Leads(src, pos, nested, acc, SpaceEnd(src, end + |mark|, nested),
                  Cat(acc, Rep(ItemExpr(item), bounds.min, bounds.max)))
    decreases item, 2
  {
    MarkAt(src, end, bounds, mark);
    ReadsItems(src, pos, nested, acc, item);
    ReadsMark(src, pos, nested, acc, ItemExpr(item), end, bounds, mark);
  }

  lemma ReadsMark(src: string, pos: nat, nested: bool, acc: Expr, item: Expr, end: nat, bounds: Bounds, mark: string)
    requires mark != "" && IsMark(mark[0]) && MarkRead(bounds, mark, src, end) && TextAt(src, end, mark)
    requires Leads(src, pos, nested, acc, SpaceEnd(src, end, nested), Cat(acc, item)) && Emits(item)
    ensures Leads(src, pos, nested, acc, SpaceEnd(src, end + |mark|, nested),
                  Cat(acc, Rep(item, bounds.min, bounds.max)))
  {
    var next := SpaceEnd(src, end + |mark|, nested);
    NoSpace(src, end, nested);
    MarkLeads(src, end, nested, acc, item, bounds, next);
    LeadsOn(src, pos, nested, acc, end, Cat(acc, item), next, Cat(acc, Rep(item, bounds.min, bounds.max)));
  }

  lemma {:induction false} ReadsSequence(src: string, pos: nat, nested: bool, acc: Expr, x: Syntax)
    requires IsSequence(x) && TextAt(src, pos, TextOf(x)) && !IsWordChar(At(src, pos + |TextOf(x)|))
    ensures Leads(src, pos, nested, acc, SpaceEnd(src, pos + |TextOf(x)|, nested), SequenceExpr(acc, x))
    decreases x, 2
  {
    if x.Seq? {
      var next := Between(src, pos, TextOf(x), TextOf(x.left), x.right, nested);
      ReadsSequence(src, pos, nested, acc, x.left);
      var acc' := SequenceExpr(acc, x.left);
      ReadsSequence(src, next, nested, acc', x.right);
      LeadsOn(src, pos, nested, acc, next, acc', SpaceEnd(src, pos + |TextOf(x)|, nested), SequenceExpr(acc', x.right));
    } else {
      ReadsItems(src, pos, nested, acc, x);
    }
  }

  lemma {:induction false} ReadsOther(src: string, pos: nat, nested: bool, bar: nat, acc: Expr, next: nat, x: Syntax)
    requires Reaches(src, pos, nested, bar, acc) && At(src, bar) == '|' && SpaceEnd(src, bar + 1, true) == next
    requires IsSequence(x) && TextAt(src, next, TextOf(x)) && !IsWordChar(At(src, next + |TextOf(x)|))
    requires SequenceEnds(src, SpaceEnd(src, next + |TextOf(x)|, nested))
    ensures Reaches(src, pos, nested, SpaceEnd(src, next + |TextOf(x)|, nested), Alt(acc, SequenceExpr(Empty, x)))
    decreases x, 3
  {
    ReadsSequence(src, next, nested, Empty, x);
    OtherReaches(src, pos, nested, bar, acc, next, SpaceEnd(src, next + |TextOf(x)|, nested), SequenceExpr(Empty, x));
  }

  /** The first alternative is empty. */
  lemma {:induction false} ReadsBarFirst(src: string, pos: nat, nested: bool, x: Syntax)
    requires IsSequence(x) && TextAt(src, pos, "| " + TextOf(x)) && !IsWordChar(At(src, pos + 2 + |TextOf(x)|))
    requires SequenceEnds(src, SpaceEnd(src, pos + 2 + |TextOf(x)|, nested))
    ensures Reaches(src, pos, nested, SpaceEnd(src, pos + 2 + |TextOf(x)|, nested), Alt(Empty, SequenceExpr(Empty, x)))
    decreases x, 4
  {
    TextParts(src, pos, "| " + TextOf(x), "| ", TextOf(x));
    TextChar(src, pos, "| ", 0);
    TextChar(src, pos, "| ", 1);
    SequenceIsAlternates(x);
    FirstAt(src, pos + 2, x);
    NoSpace(src, pos + 2, true);
    OneSpace(src, pos + 1, true);
    FirstReaches(src, pos, nested, pos, Empty);
    ReadsOther(src, pos, nested, pos, Empty, pos + 2, x);
  }

  lemma {:induction false} ReadsOr(src: string, pos: nat, nested: bool, left: Syntax, right: Syntax)
    requires IsAlternates(left) && IsSequence(right)
    requires TextAt(src, pos, TextOf(Or(left, right))) && !IsWordChar(At(src, pos + |TextOf(Or(left, right))|))
    requires SequenceEnds(src, SpaceEnd(src, pos + |TextOf(Or(left, right))|, nested))
    ensures Reaches(src, pos, nested, SpaceEnd(src, pos + |TextOf(Or(left, right))|, nested),
                    Alt(AlternatesExpr(left), SequenceExpr(Empty, right)))
    decreases Or(left, right), 3
  {
    var bar, next := AroundBar(src, pos, TextOf(Or(left, right)), TextOf(left), right, nested);
    ReadsAlternates(src, pos, nested, left);
    ReadsOther(src, pos, nested, bar, AlternatesExpr(left), next, right);
  }

  lemma {:induction false} ReadsAlternates(src: string, pos: nat, nested: bool, x: Syntax)
    requires IsAlternates(x) && TextAt(src, pos, TextOf(x)) && !IsWordChar(At(src, pos + |TextOf(x)|))
    requires SequenceEnds(src, SpaceEnd(src, pos + |TextOf(x)|, nested))
    ensures Reaches(src, pos, nested, SpaceEnd(src, pos + |TextOf(x)|, nested), AlternatesExpr(x))
    decreases x, 4
  {
    if x.Or? {
      ReadsOr(src, pos, nested, x.left, x.right);
    } else if x.Bar? {
      ReadsBarFirst(src, pos, nested, x.other);
    } else {
      ReadsSequence(src, pos, nested, Empty, x);
      FirstReaches(src, pos, nested, SpaceEnd(src, pos + |TextOf(x)|, nested), SequenceExpr(Empty, x));
    }
  }
}
