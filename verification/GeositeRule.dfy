/** Compiling the items of a code into the domain lists of a rule, and merging rules. */
module GeositeRule {
  import opened Bytes
  import opened Geosite

  const DOMAIN: byte := 0
  const DOMAIN_SUFFIX: byte := 1
  const DOMAIN_KEYWORD: byte := 2
  const DOMAIN_REGEX: byte := 3

  datatype Rule = Rule(domain: seq<Text>, suffix: seq<Text>, keyword: seq<Text>, regex: seq<Text>)

  const NO_RULE := Rule([], [], [], [])

  /** The values of one kind, in order. */
  function Values(code: seq<Item>, kind: byte): seq<Text> {
    if code == [] then []
    else Values(code[..|code| - 1], kind) + if code[|code| - 1].kind == kind then [code[|code| - 1].value] else []
  }

  function Compiled(code: seq<Item>): Rule {
    Rule(Values(code, DOMAIN), Values(code, DOMAIN_SUFFIX), Values(code, DOMAIN_KEYWORD), Values(code, DOMAIN_REGEX))
  }

  function Plus(a: Rule, b: Rule): Rule {
    Rule(a.domain + b.domain, a.suffix + b.suffix, a.keyword + b.keyword, a.regex + b.regex)
  }

  function Merged(rules: seq<Rule>): Rule {
    if rules == [] then NO_RULE else Plus(Merged(rules[..|rules| - 1]), rules[|rules| - 1])
  }

  /** How many values of each kind there are: the capacity the lists are made with. */
  method CountItems(code: seq<Item>) returns (domain: nat, suffix: nat, keyword: nat, regex: nat)
    ensures domain == |Values(code, DOMAIN)| && suffix == |Values(code, DOMAIN_SUFFIX)|
    ensures keyword == |Values(code, DOMAIN_KEYWORD)| && regex == |Values(code, DOMAIN_REGEX)|
  {
    domain, suffix, keyword, regex := 0, 0, 0, 0;
    for i := 0 to |code|
      invariant domain == |Values(code[..i], DOMAIN)| && suffix == |Values(code[..i], DOMAIN_SUFFIX)|
      invariant keyword == |Values(code[..i], DOMAIN_KEYWORD)| && regex == |Values(code[..i], DOMAIN_REGEX)|
    {
      assert code[..i + 1][..i] == code[..i];
      if code[i].kind == DOMAIN {
        domain := domain + 1;
      } else if code[i].kind == DOMAIN_SUFFIX {
        suffix := suffix + 1;
      } else if code[i].kind == DOMAIN_KEYWORD {
        keyword := keyword + 1;
      } else if code[i].kind == DOMAIN_REGEX {
        regex := regex + 1;
      }
    }
    assert code[..|code|] == code;
  }

  /** Items of any other kind are dropped; the lists fill exactly the capacity counted for them. */
  method Compile(code: seq<Item>) returns (rule: Rule)
    ensures rule == Compiled(code)
  {
    var domain, suffix, keyword, regex := CountItems(code);
    rule := NO_RULE;
    for i := 0 to |code|
      invariant rule == Compiled(code[..i])
    {
      assert code[..i + 1][..i] == code[..i];
      var item := code[i];
      if item.kind == DOMAIN {
        rule := rule.(domain := rule.domain + [item.value]);
      } else if item.kind == DOMAIN_SUFFIX {
        rule := rule.(suffix := rule.suffix + [item.value]);
      } else if item.kind == DOMAIN_KEYWORD {
        rule := rule.(keyword := rule.keyword + [item.value]);
      } else if item.kind == DOMAIN_REGEX {
        rule := rule.(regex := rule.regex + [item.value]);
      }
    }
    assert code[..|code|] == code;
    assert |rule.domain| == domain && |rule.suffix| == suffix && |rule.keyword| == keyword && |rule.regex| == regex;
  }

  /** How many values of each kind the rules have together. */
  method CountValues(rules: seq<Rule>) returns (domain: nat, suffix: nat, keyword: nat, regex: nat)
    ensures domain == |Merged(rules).domain| && suffix == |Merged(rules).suffix|
    ensures keyword == |Merged(rules).keyword| && regex == |Merged(rules).regex|
  {
    domain, suffix, keyword, regex := 0, 0, 0, 0;
    for i := 0 to |rules|
      invariant domain == |Merged(rules[..i]).domain| && suffix == |Merged(rules[..i]).suffix|
      invariant keyword == |Merged(rules[..i]).keyword| && regex == |Merged(rules[..i]).regex|
    {
      assert rules[..i + 1][..i] == rules[..i];
      domain, suffix := domain + |rules[i].domain|, suffix + |rules[i].suffix|;
      keyword, regex := keyword + |rules[i].keyword|, regex + |rules[i].regex|;
    }
    assert rules[..|rules|] == rules;
  }

  method Merge(rules: seq<Rule>) returns (rule: Rule)
    ensures rule == Merged(rules)
  {
    var domain, suffix, keyword, regex := CountValues(rules);
    rule := NO_RULE;
    for i := 0 to |rules|
      invariant rule == Merged(rules[..i])
    {
      assert rules[..i + 1][..i] == rules[..i];
      if |rules[i].domain| > 0 {
        rule := rule.(domain := rule.domain + rules[i].domain);
      }
      if |rules[i].suffix| > 0 {
        rule := rule.(suffix := rule.suffix + rules[i].suffix);
      }
      if |rules[i].keyword| > 0 {
        rule := rule.(keyword := rule.keyword + rules[i].keyword);
      }
      if |rules[i].regex| > 0 {
        rule := rule.(regex := rule.regex + rules[i].regex);
      }
    }
    assert rules[..|rules|] == rules;
    assert |rule.domain| == domain && |rule.suffix| == suffix && |rule.keyword| == keyword && |rule.regex| == regex;
  }

  // ----- compiling distributes over concatenation -----

  function Flatten(parts: seq<seq<Item>>): seq<Item> {
    if parts == [] then [] else Flatten(parts[..|parts| - 1]) + parts[|parts| - 1]
  }

  function CompiledParts(parts: seq<seq<Item>>): seq<Rule> {
    seq(|parts|, i requires 0 <= i < |parts| => Compiled(parts[i]))
  }

  lemma {:induction false} ValuesAppend(a: seq<Item>, b: seq<Item>, kind: byte)
    ensures Values(a + b, kind) == Values(a, kind) + Values(b, kind)
  {
    if b == [] {
      assert a + b == a;
    } else {
      assert (a + b)[..|a + b| - 1] == a + b[..|b| - 1];
      ValuesAppend(a, b[..|b| - 1], kind);
    }
  }

  /** Compiling all the items together is merging what their parts compile to, on all four lists and in order. */
  lemma {:induction false} CompileOfConcatenation(parts: seq<seq<Item>>)
    ensures Compiled(Flatten(parts)) == Merged(CompiledParts(parts))
  {
    if parts != [] {
      var init, last := parts[..|parts| - 1], parts[|parts| - 1];
      assert CompiledParts(parts)[..|parts| - 1] == CompiledParts(init);
      CompileOfConcatenation(init);
      ValuesAppend(Flatten(init), last, DOMAIN);
      ValuesAppend(Flatten(init), last, DOMAIN_SUFFIX);
      ValuesAppend(Flatten(init), last, DOMAIN_KEYWORD);
      ValuesAppend(Flatten(init), last, DOMAIN_REGEX);
    }
  }

  /** A single item is put into one list, by the number of its kind, or dropped. */
  lemma OneItem(kind: byte, value: Text)
    ensures Compiled([Item(kind, value)])
         == match kind
            case 0 => Rule([value], [], [], [])
            case 1 => Rule([], [value], [], [])
            case 2 => Rule([], [], [value], [])
            case 3 => Rule([], [], [], [value])
            case _ => Rule([], [], [], [])
  {
    var code := [Item(kind, value)];
    assert code[..0] == [];
    assert forall k :: Values(code, k) == if k == kind then [value] else [];
  }

  /** An item counts for the rule exactly by its value standing in the list of its kind. */
  lemma {:induction false} ValuesAreTheItems(code: seq<Item>, kind: byte, value: Text)
    ensures value in Values(code, kind) <==> Item(kind, value) in code
  {
    if code != [] {
      var init, last := code[..|code| - 1], code[|code| - 1];
      ValuesAreTheItems(init, kind, value);
      assert code == init + [last];
    }
  }
}
