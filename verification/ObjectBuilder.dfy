/** How the rules for an object are made. */
module ObjectBuilder {
  import opened Wrappers
  import opened Gbnf
  import opened GbnfSyntax
  import opened Meaning
  import opened KeyExclusion
  import opened KeyTrie
  import opened SchemaRules
  import opened ObjectMembers
  import opened ObjectRules
  import opened JsonTexts
  import StringRules
  import KeyRules

  /** A property, its name as a GBNF literal, and the rule that its schema was converted to. */
  datatype Property = Property(name: Name, literal: Text, valueRule: Name)

  /** The names of a rule, and of what it is a part of, with a dash between them. */
  function Qualified(name: Name, part: Name): Name {
    (if name == "" then "" else name + "-") + part
  }

  const COLON := Cat(Lit([58]), Ref(SPACE_NAME))

  /** The key of a property, a colon and its value. */
  function MemberRule(p: Property): Expr {
    Cat(Cat(Cat(Lit(p.literal), Ref(SPACE_NAME)), COLON), Ref(p.valueRule))
  }

  function AdditionalRule(keyRule: Name, valueRule: Name): Expr {
    Cat(Cat(Ref(keyRule), COLON), Ref(valueRule))
  }

  function Names(properties: seq<Property>): seq<Name> {
    seq(|properties|, i requires 0 <= i < |properties| => properties[i].name)
  }

  /** The names of the properties that are, or are not, required, in order. */
  function Chosen(properties: seq<Property>, required: set<Name>, yes: bool): seq<Name> {
    if properties == [] then []
    else
      var n := |properties| - 1;
      var last := properties[n].name;
      Chosen(properties[..n], required, yes) + (if (last in required) == yes then [last] else [])
  }

  lemma {:induction false} ChosenAmong(properties: seq<Property>, required: set<Name>, yes: bool)
    ensures forall k :: k in Chosen(properties, required, yes) <==> k in Names(properties) && (k in required) == yes
    decreases |properties|
  {
    if properties != [] {
      var n := |properties| - 1;
      ChosenAmong(properties[..n], required, yes);
      assert Names(properties) == Names(properties[..n]) + [properties[n].name];
    }
  }

  /** The places of the chosen properties: all of them, from the first on. */
  ghost predicate InOrder(properties: seq<Property>, required: set<Name>, yes: bool, names: seq<Name>, at: seq<nat>) {
    && |at| == |names|
    && (forall i, j :: 0 <= i < j < |at| ==> at[i] < at[j])
    && (forall i :: 0 <= i < |at| ==> at[i] < |properties| && names[i] == properties[at[i]].name)
    && (forall p: nat :: p < |properties| ==> (p in at <==> ((properties[p].name in required) == yes)))
  }

  /** The names chosen are in the order of the properties. */
  lemma {:induction false} ChosenInOrder(properties: seq<Property>, required: set<Name>, yes: bool)
    returns (at: seq<nat>)
    ensures InOrder(properties, required, yes, Chosen(properties, required, yes), at)
    decreases |properties|
  {
    at := [];
    if properties != [] {
      var n := |properties| - 1;
      var front := properties[..n];
      var before := ChosenInOrder(front, required, yes);
      at := before + if (properties[n].name in required) == yes then [n] else [];
      forall p: nat | p < |properties|
        ensures p in at <==> ((properties[p].name in required) == yes)
      {
        if p < n {
          assert front[p] == properties[p];
        } else {
          assert p !in before;
        }
      }
    }
  }

  function Codes(s: string): Text {
    seq(|s|, i requires 0 <= i < |s| => s[i] as nat)
  }

  function AllCodes(names: seq<Name>): seq<Text> {
    seq(|names|, i requires 0 <= i < |names| => Codes(names[i]))
  }

  /** No property after the `i`-th has its name. */
  predicate LastNamed(properties: seq<Property>, i: nat)
    requires i < |properties|
  {
    forall j :: i < j < |properties| ==> properties[j].name != properties[i].name
  }

  /** The rules for the members are in place; the last property of a name is the one that has it. */
  predicate Bound(g: Grammar, kv: Members, properties: seq<Property>) {
    forall i :: 0 <= i < |properties| && LastNamed(properties, i) ==> BoundTo(g, kv, properties[i])
  }

  predicate BoundTo(g: Grammar, kv: Members, p: Property) {
    p.name in kv && kv[p.name] in g && g[kv[p.name]] == MemberRule(p)
  }

  /** The rule for a property describes its key, a colon and its values, with space between them. */
  lemma MemberExact(g: Grammar, kv: Members, p: Property, w: Text)
    requires BoundTo(g, kv, p)
    ensures Member(g, kv, p.name, w) <==> MemberText(g, p.literal, p.valueRule, w)
  {
    var key, front := Cat(Lit(p.literal), Ref(SPACE_NAME)), Cat(Cat(Lit(p.literal), Ref(SPACE_NAME)), COLON);
    MeansRef(g, kv[p.name], w);
    if Means(g, MemberRule(p), w) {
      var a, v := SplitCat(g, front, Ref(p.valueRule), w);
      var b, c := SplitCat(g, key, COLON, a);
      var d, s := SplitCat(g, Lit(p.literal), Ref(SPACE_NAME), b);
      SignMeans(g, 58, c);
      assert c == [58] + c[1..] && d == p.literal;
      assert w == p.literal + s + [58] + c[1..] + v;
      assert MemberParts(g, p.literal, p.valueRule, w, s, c[1..], v);
    }
    if MemberText(g, p.literal, p.valueRule, w) {
      MemberJoined(g, p, w);
    }
  }

  lemma MemberJoined(g: Grammar, p: Property, w: Text)
    requires MemberText(g, p.literal, p.valueRule, w)
    ensures Means(g, MemberRule(p), w)
  {
    var s, t, v :| MemberParts(g, p.literal, p.valueRule, w, s, t, v);
    var key, c := Cat(Lit(p.literal), Ref(SPACE_NAME)), [58] + t;
    assert Match(g, 0, Lit(p.literal), p.literal);
    assert c[1..] == t;
    SignMeans(g, 58, c);
    JoinCat(g, Lit(p.literal), Ref(SPACE_NAME), p.literal, s);
    JoinCat(g, key, COLON, p.literal + s, c);
    JoinCat(g, Cat(key, COLON), Ref(p.valueRule), p.literal + s + c, v);
    assert w == p.literal + s + c + v;
  }

  /** The rule for the others describes a key, a colon and a value. */
  lemma AdditionalExact(g: Grammar, kv: Members, keyRule: Name, valueRule: Name, w: Text)
    requires ADDITIONAL in kv && kv[ADDITIONAL] in g && g[kv[ADDITIONAL]] == AdditionalRule(keyRule, valueRule)
    ensures Member(g, kv, ADDITIONAL, w) <==> AdditionalText(g, keyRule, valueRule, w)
  {
    MeansRef(g, kv[ADDITIONAL], w);
    if Means(g, AdditionalRule(keyRule, valueRule), w) {
      var a, v := SplitCat(g, Cat(Ref(keyRule), COLON), Ref(valueRule), w);
      var k, c := SplitCat(g, Ref(keyRule), COLON, a);
      SignMeans(g, 58, c);
      assert c == [58] + c[1..];
      assert w == k + [58] + c[1..] + v;
      assert AdditionalParts(g, keyRule, valueRule, w, k, c[1..], v);
    }
    if AdditionalText(g, keyRule, valueRule, w) {
      AdditionalJoined(g, keyRule, valueRule, w);
    }
  }

  lemma AdditionalJoined(g: Grammar, keyRule: Name, valueRule: Name, w: Text)
    requires AdditionalText(g, keyRule, valueRule, w)
    ensures Means(g, AdditionalRule(keyRule, valueRule), w)
  {
    var k, t, v :| AdditionalParts(g, keyRule, valueRule, w, k, t, v);
    var c := [58] + t;
    assert c[1..] == t;
    SignMeans(g, 58, c);
    JoinCat(g, Ref(keyRule), COLON, k, c);
    JoinCat(g, Cat(Ref(keyRule), COLON), Ref(valueRule), k + c, v);
    assert w == k + c + v;
  }

  lemma BoundMore(g: Grammar, h: Grammar, kv: Members, properties: seq<Property>)
    requires Bound(g, kv, properties) && Extends(g, h)
    ensures Bound(h, kv, properties)
  {
  }

  lemma BoundNext(g: Grammar, kv: Members, properties: seq<Property>, i: nat, key: Name)
    requires i < |properties| && Bound(g, kv, properties[..i]) && key in g && g[key] == MemberRule(properties[i])
    ensures Bound(g, kv[properties[i].name := key], properties[..i + 1])
  {
    var kv', more := kv[properties[i].name := key], properties[..i + 1];
    forall j | 0 <= j < |more| && LastNamed(more, j)
      ensures BoundTo(g, kv', more[j])
    {
      if j < i {
        assert more[i] == properties[i] && more[j] == properties[..i][j];
        assert forall k :: j < k < i ==> properties[..i][k] == more[k];
        assert LastNamed(properties[..i], j);
      }
    }
  }

  /** Makes the rule for one property, under the first name that is free of those for it. */
  method MakeMember(conv: SchemaConverter, name: Name, p: Property) returns (key: Name)
    modifies conv
    ensures Extends(old(conv.rules), conv.rules) && key in conv.rules && conv.rules[key] == MemberRule(p)
    ensures FirstFree(old(conv.rules), Escaped((if name == "" then "" else name + "-") + (p.name + "-kv")),
              MemberRule(p), key)
  {
    key := conv.AddRule(Qualified(name, p.name + "-kv"), MemberRule(p));
  }

  /** Makes the rule for one member. */
  method AddMember(conv: SchemaConverter, name: Name, kv: Members, properties: seq<Property>, i: nat)
    returns (kv': Members)
    requires i < |properties| && Bound(conv.rules, kv, properties[..i])
    modifies conv
    ensures Extends(old(conv.rules), conv.rules) && Bound(conv.rules, kv', properties[..i + 1])
    ensures kv'.Keys == kv.Keys + {properties[i].name}
  {
    ghost var before := conv.rules;
    var p := properties[i];
    var key := MakeMember(conv, name, p);
    BoundMore(before, conv.rules, kv, properties[..i]);
    BoundNext(conv.rules, kv, properties, i, key);
    kv' := kv[p.name := key];
  }

  /** Makes the rules for the members and sorts them into required and optional ones. */
  method AddMembers(conv: SchemaConverter, name: Name, properties: seq<Property>, required: set<Name>)
    returns (kv: Members, requiredProps: seq<Name>, optionalProps: seq<Name>)
    modifies conv
    ensures Extends(old(conv.rules), conv.rules)
    ensures Bound(conv.rules, kv, properties)
    ensures requiredProps == Chosen(properties, required, true) && optionalProps == Chosen(properties, required, false)
    ensures forall k :: k in Names(properties) ==> k in kv
  {
    kv, requiredProps, optionalProps := map[], [], [];
    var i := 0;
    while i < |properties|
      invariant i <= |properties|
      invariant Extends(old(conv.rules), conv.rules)
      invariant Bound(conv.rules, kv, properties[..i])
      invariant requiredProps == Chosen(properties[..i], required, true)
      invariant optionalProps == Chosen(properties[..i], required, false)
      invariant AllKeyed(kv, properties, i)
    {
      ghost var before := kv;
      kv := AddMember(conv, name, kv, properties, i);
      KeyedMore(before, kv, properties, i);
      requiredProps, optionalProps := SortMember(properties, required, i, requiredProps, optionalProps);
      i := i + 1;
    }
    assert properties[..i] == properties;
    AllNamesKeyed(kv, properties);
  }

  /** Each of the first `n` properties has a rule. */
  predicate AllKeyed(kv: Members, properties: seq<Property>, n: nat)
    requires n <= |properties|
  {
    forall j :: 0 <= j < n ==> properties[j].name in kv
  }

  lemma KeyedMore(kv: Members, kv': Members, properties: seq<Property>, i: nat)
    requires i < |properties| && AllKeyed(kv, properties, i) && kv'.Keys == kv.Keys + {properties[i].name}
    ensures AllKeyed(kv', properties, i + 1)
  {
  }

  lemma AllNamesKeyed(kv: Members, properties: seq<Property>)
    requires AllKeyed(kv, properties, |properties|)
    ensures forall k :: k in Names(properties) ==> k in kv
  {
  }

  /** Puts a property to the required or to the optional ones. */
  method SortMember(properties: seq<Property>, required: set<Name>, i: nat, requiredProps: seq<Name>,
                    optionalProps: seq<Name>)
    returns (requiredProps': seq<Name>, optionalProps': seq<Name>)
    requires i < |properties|
    requires requiredProps == Chosen(properties[..i], required, true)
    requires optionalProps == Chosen(properties[..i], required, false)
    ensures requiredProps' == Chosen(properties[..i + 1], required, true)
    ensures optionalProps' == Chosen(properties[..i + 1], required, false)
  {
    var name := properties[i].name;
    requiredProps', optionalProps' := requiredProps, optionalProps;
    if name in required {
      requiredProps' := requiredProps + [name];
    } else {
      optionalProps' := optionalProps + [name];
    }
    ChosenMore(properties, required, i);
  }

  lemma ChosenMore(properties: seq<Property>, required: set<Name>, i: nat)
    requires i < |properties|
    ensures var name := properties[i].name;
            && Chosen(properties[..i + 1], required, true) ==
                 Chosen(properties[..i], required, true) + (if name in required then [name] else [])
            && Chosen(properties[..i + 1], required, false) ==
                 Chosen(properties[..i], required, false) + (if name in required then [] else [name])
  {
    assert properties[..i + 1][..i] == properties[..i];
  }

  /** The rule for the members that are not listed; its keys are none of those listed. */
  method AddAdditional(conv: SchemaConverter, name: Name, names: seq<Name>, stringRule: Name, valueRule: Name)
    returns (keyRule: Name, kvRule: Name)
    modifies conv
    ensures Extends(old(conv.rules), conv.rules)
    ensures kvRule in conv.rules && conv.rules[kvRule] == AdditionalRule(keyRule, valueRule)
    ensures if names == [] then keyRule == stringRule
            else keyRule in conv.rules && conv.rules[keyRule] == Meant(NotStrings(Listing(AllCodes(names))))
  {
    var subName := Qualified(name, "additional");
    if names == [] {
      keyRule := stringRule;
    } else {
      var keys := BuildNotStrings(AllCodes(names));
      keyRule := conv.AddRule(subName + "-k", Meant(keys));
    }
    kvRule := conv.AddRule(subName + "-kv", AdditionalRule(keyRule, valueRule));
  }

  /** The first of the members `ks`, and a reference to a rule for the others, which is made. */
  method GetRecursiveRefs(conv: SchemaConverter, name: Name, kv: Members, ks: seq<Name>, firstIsOptional: bool)
    returns (e: Expr)
    requires ks != [] && forall k :: k in ks ==> k in kv
    modifies conv
    ensures Extends(old(conv.rules), conv.rules) && Refs(conv.rules, kv, ks, firstIsOptional, e)
    decreases |ks|
  {
    e := Head(kv, ks[0], firstIsOptional);
    if |ks| > 1 {
      var rest := GetRecursiveRefs(conv, name, kv, ks[1..], true);
      ghost var before := conv.rules;
      var key := conv.AddRule(Qualified(name, ks[0] + "-rest"), rest);
      RefsMore(before, conv.rules, kv, ks[1..], true, rest);
      e := Cat(e, Ref(key));
    }
  }

  /** The alternatives that begin with each of the optional members. */
  method BuildAlternatives(conv: SchemaConverter, name: Name, kv: Members, ks: seq<Name>) returns (e: Expr)
    requires ks != [] && forall k :: k in ks ==> k in kv
    modifies conv
    ensures Extends(old(conv.rules), conv.rules) && Alternates(conv.rules, kv, ks, |ks|, e)
  {
    e := GetRecursiveRefs(conv, name, kv, ks, false);
    var i := 1;
    while i < |ks|
      invariant 1 <= i <= |ks|
      invariant Extends(old(conv.rules), conv.rules) && Alternates(conv.rules, kv, ks, i, e)
    {
      ghost var before := conv.rules;
      var next := GetRecursiveRefs(conv, name, kv, ks[i..], false);
      AlternatesMore(before, conv.rules, kv, ks, i, e);
      e := Alt(e, next);
      i := i + 1;
    }
  }

  /** The opening brace and the required members. */
  method BuildRequired(kv: Members, required: seq<Name>) returns (e: Expr)
    requires forall k :: k in required ==> k in kv
    ensures e == Chain(kv, required)
  {
    e := OPENING;
    var i := 0;
    while i < |required|
      invariant i <= |required| && e == Chain(kv, required[..i])
    {
      if i > 0 {
        e := Cat(e, COMMA);
      }
      e := Cat(e, Ref(kv[required[i]]));
      assert required[..i + 1][..i] == required[..i];
      i := i + 1;
    }
    assert required[..i] == required;
  }

  /** What the optional members of an object are: those not required, and the additional ones if they are let in. */
  function Optional(properties: seq<Property>, required: set<Name>, additional: bool): seq<Name> {
    Chosen(properties, required, false) + (if additional then [ADDITIONAL] else [])
  }

  /** The rules for the members that are not listed are in place. */
  ghost predicate AdditionalBound(g: Grammar, kv: Members, properties: seq<Property>, keyRule: Name, stringRule: Name,
                                  valueRule: Name) {
    && ADDITIONAL in kv
    && kv[ADDITIONAL] in g
    && g[kv[ADDITIONAL]] == AdditionalRule(keyRule, valueRule)
    && (if properties == [] then keyRule == stringRule
        else keyRule in g && g[keyRule] == Meant(NotStrings(Listing(AllCodes(Names(properties))))))
  }

  /** The braces, the required members and the choice of the optional ones. */
  method BuildBraces(conv: SchemaConverter, name: Name, kv: Members, required: seq<Name>, optional: seq<Name>)
    returns (rule: Expr)
    requires forall k :: k in required || k in optional ==> k in kv
    modifies conv
    ensures Extends(old(conv.rules), conv.rules) && IsObject(conv.rules, kv, required, optional, rule)
  {
    rule := BuildRequired(kv, required);
    if optional != [] {
      var alternatives := BuildAlternatives(conv, name, kv, optional);
      var choice := Rep(Group(if required == [] then alternatives else Cat(COMMA, Group(alternatives))), 0, Some(1));
      assert IsChoice(conv.rules, kv, required, optional, choice);
      rule := Cat(rule, choice);
    }
    rule := Cat(rule, CLOSING);
  }

  /**
    The rule for an object. The schemas of its properties have been converted to the rules they name;
    `additional` is the rule for the values of other members, unless there may be none.
   */
  method BuildObjectRule(conv: SchemaConverter, properties: seq<Property>, required: set<Name>, name: Name,
                         additional: Option<Name>, stringRule: Name)
    returns (rule: Expr, kv: Members, keyRule: Name)
    modifies conv
    ensures Extends(old(conv.rules), conv.rules)
    ensures IsObject(conv.rules, kv, Chosen(properties, required, true),
            Optional(properties, required, additional.Some?), rule)
    ensures additional.None? || ADDITIONAL !in Names(properties) ==> Bound(conv.rules, kv, properties)
    ensures additional.Some? ==> AdditionalBound(conv.rules, kv, properties, keyRule, stringRule, additional.value)
    ensures ADDITIONAL !in Names(properties) ==>
            forall w :: Means(conv.rules, rule, w) <==>
              DescribesObject(conv.rules, properties, required, additional, keyRule, w)
  {
    var requiredProps, optionalProps;
    kv, requiredProps, optionalProps := AddMembers(conv, name, properties, required);
    ChosenAmong(properties, required, true);
    ChosenAmong(properties, required, false);
    keyRule := stringRule;
    if additional.Some? {
      ghost var before := conv.rules;
      var kvRule;
      keyRule, kvRule := AddAdditional(conv, name, Names(properties), stringRule, additional.value);
      BoundMore(before, conv.rules, kv, properties);
      if ADDITIONAL !in Names(properties) {
        NotListed(conv.rules, kv, properties, kvRule);
      }
      assert properties == [] <==> Names(properties) == [];
      kv := kv[ADDITIONAL := kvRule];
      optionalProps := optionalProps + [ADDITIONAL];
    }
    assert optionalProps == Optional(properties, required, additional.Some?);
    ghost var before := conv.rules;
    rule := BuildBraces(conv, name, kv, requiredProps, optionalProps);
    if additional.None? || ADDITIONAL !in Names(properties) {
      BoundMore(before, conv.rules, kv, properties);
    }
    if additional.Some? {
      AdditionalMore(before, conv.rules, kv, properties, keyRule, stringRule, additional.value);
    }
    if ADDITIONAL !in Names(properties) {
      forall w
        ensures Means(conv.rules, rule, w) <==>
                DescribesObject(conv.rules, properties, required, additional, keyRule, w)
      {
        ObjectDescribed(conv.rules, kv, properties, required, additional, keyRule, stringRule, rule, w);
      }
    }
  }

  /** A member of this name: of the last property that has it, or an additional one. */
  ghost predicate DescribesMember(g: Grammar, properties: seq<Property>, additional: Option<Name>, keyRule: Name,
                                  k: Name, w: Text) {
    if k == ADDITIONAL then additional.Some? && AdditionalText(g, keyRule, additional.value, w)
    else exists i :: 0 <= i < |properties| && LastNamed(properties, i) && DescribedBy(g, properties[i], k, w)
  }

  ghost predicate DescribedBy(g: Grammar, p: Property, k: Name, w: Text) {
    p.name == k && MemberText(g, p.literal, p.valueRule, w)
  }

  /**
    All the required members and then a selection of the others, each of them as its property says, with
    commas between them and in braces.
   */
  ghost predicate DescribesObject(g: Grammar, properties: seq<Property>, required: set<Name>, additional: Option<Name>,
                                  keyRule: Name, w: Text) {
    exists sel, ms ::
      && Selects(Chosen(properties, required, false) + (if additional.Some? then ["*"] else []), sel)
      && Described(g, properties, additional, keyRule, Chosen(properties, required, true) + sel, ms)
      && Braced(g, ms, w)
  }

  ghost predicate Described(g: Grammar, properties: seq<Property>, additional: Option<Name>, keyRule: Name,
                            names: seq<Name>, ms: seq<Text>) {
    |ms| == |names| &&
      forall i :: 0 <= i < |names| ==> DescribesMember(g, properties, additional, keyRule, names[i], ms[i])
  }

  /** The last property of a name. */
  lemma {:induction false} LastOf(properties: seq<Property>, k: Name) returns (i: nat)
    requires k in Names(properties)
    ensures i < |properties| && properties[i].name == k && LastNamed(properties, i)
    decreases |properties|
  {
    var n := |properties| - 1;
    if properties[n].name == k {
      i := n;
    } else {
      var front := properties[..n];
      assert Names(properties) == Names(front) + [properties[n].name];
      i := LastOf(front, k);
    }
  }

  lemma MemberDescribed(g: Grammar, kv: Members, properties: seq<Property>, additional: Option<Name>, keyRule: Name,
                        stringRule: Name, k: Name, w: Text)
    requires Bound(g, kv, properties) && ADDITIONAL !in Names(properties)
    requires additional.Some? ==> AdditionalBound(g, kv, properties, keyRule, stringRule, additional.value)
    requires k in Names(properties) || (k == ADDITIONAL && additional.Some?)
    ensures Member(g, kv, k, w) <==> DescribesMember(g, properties, additional, keyRule, k, w)
  {
    if k == ADDITIONAL {
      AdditionalExact(g, kv, keyRule, additional.value, w);
    } else {
      var i := LastOf(properties, k);
      MemberExact(g, kv, properties[i], w);
      assert forall j :: 0 <= j < |properties| && LastNamed(properties, j) && properties[j].name == k ==> j == i;
    }
  }

  lemma SelectedNames(properties: seq<Property>, required: set<Name>, additional: Option<Name>, sel: seq<Name>)
    requires Selects(Optional(properties, required, additional.Some?), sel)
    ensures forall k :: k in Chosen(properties, required, true) + sel ==>
              k in Names(properties) || (k == ADDITIONAL && additional.Some?)
  {
    ChosenAmong(properties, required, true);
    ChosenAmong(properties, required, false);
    SelectedAmong(Optional(properties, required, additional.Some?), sel);
  }

  lemma AllDescribed(g: Grammar, kv: Members, properties: seq<Property>, additional: Option<Name>, keyRule: Name,
                     stringRule: Name, names: seq<Name>, ms: seq<Text>)
    requires Bound(g, kv, properties) && ADDITIONAL !in Names(properties)
    requires additional.Some? ==> AdditionalBound(g, kv, properties, keyRule, stringRule, additional.value)
    requires forall k :: k in names ==> k in Names(properties) || (k == ADDITIONAL && additional.Some?)
    ensures AreMembers(g, kv, names, ms) <==> Described(g, properties, additional, keyRule, names, ms)
  {
    if |ms| == |names| {
      forall i | 0 <= i < |names|
        ensures Member(g, kv, names[i], ms[i]) <==>
                DescribesMember(g, properties, additional, keyRule, names[i], ms[i])
      {
        MemberDescribed(g, kv, properties, additional, keyRule, stringRule, names[i], ms[i]);
      }
    }
  }

  lemma ObjectDescribed(g: Grammar, kv: Members, properties: seq<Property>, required: set<Name>,
                        additional: Option<Name>, keyRule: Name, stringRule: Name, rule: Expr, w: Text)
    requires Bound(g, kv, properties) && ADDITIONAL !in Names(properties)
    requires additional.Some? ==> AdditionalBound(g, kv, properties, keyRule, stringRule, additional.value)
    requires IsObject(g, kv, Chosen(properties, required, true), Optional(properties, required, additional.Some?), rule)
    ensures Means(g, rule, w) <==> DescribesObject(g, properties, required, additional, keyRule, w)
  {
    var first, optional := Chosen(properties, required, true), Optional(properties, required, additional.Some?);
    ObjectExact(g, kv, first, optional, rule, w);
    if SomeObject(g, kv, first, optional, w) {
      var sel :| Selects(optional, sel) && ObjectText(g, kv, first + sel, w);
      var ms := ObjectTexts(g, kv, first + sel, w);
      SelectedNames(properties, required, additional, sel);
      AllDescribed(g, kv, properties, additional, keyRule, stringRule, first + sel, ms);
    }
    if DescribesObject(g, properties, required, additional, keyRule, w) {
      var sel, ms :| && Selects(optional, sel)
                     && Described(g, properties, additional, keyRule, first + sel, ms)
                     && Braced(g, ms, w);
      SelectedNames(properties, required, additional, sel);
      AllDescribed(g, kv, properties, additional, keyRule, stringRule, first + sel, ms);
      ObjectInTexts(g, kv, first + sel, w);
    }
  }

  /** The keys of the members that are not listed, with the space after them. */
  lemma AdditionalKeys(g: Grammar, kv: Members, properties: seq<Property>, keyRule: Name, stringRule: Name,
                       valueRule: Name, keys: set<Text>, w: Text)
    requires AdditionalBound(g, kv, properties, keyRule, stringRule, valueRule) && properties != []
    requires HasChars(g) && SPACE_NAME in g && g[SPACE_NAME] == Meant(StringRules.SPACE_SYNTAX)
    requires forall key :: key in keys <==> IsListed(properties, key)
    ensures Means(g, Ref(keyRule), w) <==> KeyRules.KeyAndSpace(keys, w)
  {
    var listed := Listing(AllCodes(Names(properties)));
    forall key
      ensures key in listed <==> key in keys
    {
      ListedKey(properties, key);
    }
    assert listed == keys;
    KeyRules.KeyLanguage(g, keyRule, listed, w);
  }

  /** The key has the characters of the name of a property. */
  predicate IsListed(properties: seq<Property>, key: Text) {
    exists i :: 0 <= i < |properties| && HasCodes(key, properties[i].name)
  }

  predicate HasCodes(key: Text, name: Name) {
    |key| == |name| && forall j :: 0 <= j < |key| ==> key[j] == name[j] as nat
  }

  lemma ListedKey(properties: seq<Property>, key: Text)
    ensures key in Listing(AllCodes(Names(properties))) <==> IsListed(properties, key)
  {
    var all := AllCodes(Names(properties));
    forall i | 0 <= i < |properties|
      ensures all[i] == key <==> HasCodes(key, properties[i].name)
    {
      assert all[i] == Codes(properties[i].name);
      if HasCodes(key, properties[i].name) {
        assert key == Codes(properties[i].name);
      }
    }
  }

  lemma AdditionalMore(g: Grammar, h: Grammar, kv: Members, properties: seq<Property>, keyRule: Name, stringRule: Name,
                       valueRule: Name)
    requires AdditionalBound(g, kv, properties, keyRule, stringRule, valueRule) && Extends(g, h)
    ensures AdditionalBound(h, kv, properties, keyRule, stringRule, valueRule)
  {
  }

  lemma NotListed(g: Grammar, kv: Members, properties: seq<Property>, kvRule: Name)
    requires Bound(g, kv, properties) && ADDITIONAL !in Names(properties)
    ensures Bound(g, kv[ADDITIONAL := kvRule], properties)
  {
    assert forall i :: 0 <= i < |properties| ==> properties[i].name == Names(properties)[i];
  }

  // ---------------------------------------------------------------------------------------------
  // Members that are repeated

  /** A listed property is named like the additional ones and need not be there. */
  predicate ListsStar(properties: seq<Property>, required: set<Name>) {
    ADDITIONAL in Names(properties) && ADDITIONAL !in required
  }

  lemma {:induction false} ChosenDistinct(properties: seq<Property>, required: set<Name>, yes: bool)
    requires Distinct(Names(properties))
    ensures Distinct(Chosen(properties, required, yes))
    decreases |properties|
  {
    if properties != [] {
      var n := |properties| - 1;
      var front := properties[..n];
      var before, last := Names(front), properties[n].name;
      assert Names(properties) == before + [last];
      assert forall i :: 0 <= i < n ==> before[i] == Names(properties)[i];
      assert Names(properties)[n] == last;
      assert last !in before;
      ChosenDistinct(front, required, yes);
      ChosenAmong(front, required, yes);
      assert last !in Chosen(front, required, yes);
    }
  }

  /**
    Where no additional members are let in and no name is listed twice, no member may be repeated, unless
    a property that need not be there is named like the additional ones.
   */
  lemma RepeatedMembers(properties: seq<Property>, required: set<Name>)
    requires Distinct(Names(properties))
    ensures NoneRepeated(Optional(properties, required, false)) <==> !ListsStar(properties, required)
  {
    ChosenAmong(properties, required, false);
    ChosenDistinct(properties, required, false);
    RepeatsAdditional(Optional(properties, required, false));
  }
}
