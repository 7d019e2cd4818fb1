/**
 * The rule store: a Python source file whose rules each begin with a `#RULE:<name>` line,
 * after a header. Commands arriving as text messages list, show, add, delete and change the
 * rules. The file is a field of the store: None stands for a file that cannot be opened.
 */
module Rules {
  import opened Bytes
  import opened PyStr

  const TAG: string := "#RULE:"

  // ---------------------------------------------------------------- rule text

  /** `multi_replace(txt)`: double quotes become single quotes. */
  function MultiReplace(txt: string): (r: string)
    ensures |r| == |txt| && NoChar(r, '"')
    ensures forall k :: 0 <= k < |txt| ==> r[k] == if txt[k] == '"' then '\'' else txt[k]
  {
    ReplaceChar(txt, '"', '\'');
    Replace(txt, ['"'], ['\''])
  }

  /** One line of `indent_content`: four spaces in front of a line with text, "" for a blank one. */
  function IndentLine(l: string): string
  {
    if Strip(l) != "" then "    " + l else ""
  }

  function IndentLines(ls: seq<string>): (r: seq<string>)
    ensures |r| == |ls| && forall k :: 0 <= k < |ls| ==> r[k] == IndentLine(ls[k])
  {
    seq(|ls|, k requires 0 <= k < |ls| => IndentLine(ls[k]))
  }

  /** `indent_content(content)`: quotes replaced, then every line indented. */
  function IndentContent(content: string): string
  {
    if content == "" then "" else Join(IndentLines(Split(MultiReplace(content), "\n")), "\n")
  }

  /** A line indents to "" exactly when it is blank, and otherwise gains four spaces. */
  lemma IndentLineSpec(l: string)
    ensures IndentLine(l) == "" <==> AllSpace(l)
    ensures !AllSpace(l) ==> IndentLine(l) == "    " + l
  {
    StripEmpty(l);
  }

  /**
   * `indent_content`: "" for "", no double quote in the result, and the lines of the result
   * are the lines of the quote-replaced input, each indented; so there are as many lines as in
   * the input.
   */
  lemma IndentContentSpec(content: string)
    ensures content == "" ==> IndentContent(content) == ""
    ensures NoChar(IndentContent(content), '"')
    ensures content != "" ==>
      Split(IndentContent(content), "\n") == IndentLines(Split(MultiReplace(content), "\n"))
    ensures |Split(IndentContent(content), "\n")| == |Split(content, "\n")|
  {
    if content != "" {
      var m := MultiReplace(content);
      var ls := Split(m, "\n");
      var il := IndentLines(ls);
      SplitNoChar(m, "\n", '"');
      SplitPiecesFree(m, "\n");
      forall k | 0 <= k < |il| ensures NoChar(il[k], '"') && NoChar(il[k], '\n') {
        assert !Contains(ls[k], "\n");
        forall i | 0 <= i < |ls[k]| ensures ls[k][i] != '\n' {
          OccursChar(ls[k], '\n', i);
        }
      }
      JoinNoChar(il, "\n", '"');
      SplitJoinChar(il, '\n');
      SplitCharCount(m, content, '\n');
    }
  }

  /** The quote replacement leaves no double quote and changes nothing else. */
  lemma MultiReplaceSpec(txt: string)
    ensures NoChar(MultiReplace(txt), '"')
    ensures NoChar(txt, '"') ==> MultiReplace(txt) == txt
  {
  }

  // ---------------------------------------------------------------- the file

  /** The splitting in `get_rules`: the header before the first tag, then each rule with its
      tag put back. */
  function SplitRules(content: string): (string, seq<string>)
  {
    if !Contains(content, TAG) then (content, [])
    else
      var parts := Split(content, TAG);
      (parts[0], seq(|parts| - 1, k requires 0 <= k < |parts| - 1 => TAG + parts[k + 1]))
  }

  /**
   * Without a tag the content is all header. With one, the header holds no tag, every rule
   * starts with the tag, there is at least one rule, and header and rules put together are
   * the content.
   */
  lemma SplitRulesSpec(content: string)
    ensures !Contains(content, TAG) ==> SplitRules(content) == (content, [])
    ensures var (header, rules) := SplitRules(content);
      && !Contains(header, TAG)
      && (forall k :: 0 <= k < |rules| ==> OccursAt(rules[k], TAG, 0))
      && (Contains(content, TAG) ==> rules != [])
      && header + Concat(rules) == content
  {
    var (header, rules) := SplitRules(content);
    if Contains(content, TAG) {
      var parts := Split(content, TAG);
      forall k | 0 <= k < |rules| ensures OccursAt(rules[k], TAG, 0) {
        TagFirst(parts[k + 1]);
      }
      SplitPiecesFree(content, TAG);
      JoinSplit(content, TAG);
      JoinAsConcat(parts, TAG);
      var k := IndexOf(content, TAG).value;
      assert parts == [content[..k]] + Split(content[k + |TAG|..], TAG);
    } else {
      assert Concat([]) == "";
    }
  }

  /** A rule put back together starts with the tag. */
  lemma TagFirst(p: string)
    ensures OccursAt(TAG + p, TAG, 0)
  {
    assert (TAG + p)[..|TAG|] == TAG;
  }

  /** `get_rules()`: nothing when the file cannot be opened. */
  function ReadRules(file: Option<string>): (string, seq<string>)
  {
    match file
    case None => ("", [])
    case Some(content) => SplitRules(content)
  }

  /** What `save_rules(header, rules)` writes. */
  function SaveText(header: string, rules: seq<string>): (r: string)
    ensures |r| > 0 && r[|r| - 1] == '\n'
  {
    header + Strip(Concat(rules)) + "\n"
  }

  // ---------------------------------------------------------------- the commands

  /** `("#RULE:" + name) in r`: a substring test, so a name also matches longer names. */
  predicate Matches(r: string, name: string)
  {
    Contains(r, TAG + name)
  }

  /** The first rule that matches the name. */
  function FirstMatch(rules: seq<string>, name: string): (r: Option<nat>)
    ensures r.Some? ==> r.value < |rules| && Matches(rules[r.value], name)
                        && forall j :: 0 <= j < r.value ==> !Matches(rules[j], name)
    ensures r.None? ==> forall j :: 0 <= j < |rules| ==> !Matches(rules[j], name)
  {
    if rules == [] then None
    else if Matches(rules[0], name) then Some(0)
    else
      match FirstMatch(rules[1..], name)
      case None => None
      case Some(i) =>
        assert forall j :: 1 <= j < i + 1 ==> rules[j] == rules[1..][j - 1];
        Some(i + 1)
  }

  /** The first match is the matching rule with none before it. */
  lemma FirstMatchAt(rules: seq<string>, name: string, k: nat)
    requires k < |rules| && Matches(rules[k], name)
    requires forall j :: 0 <= j < k ==> !Matches(rules[j], name)
    ensures FirstMatch(rules, name) == Some(k)
  {
  }

  /** `[r for r in rules if ("#RULE:" + name) not in r]`. */
  function Unmatched(rules: seq<string>, name: string): (r: seq<string>)
    ensures |r| <= |rules|
    ensures forall x :: x in r <==> x in rules && !Matches(x, name)
    ensures |r| == |rules| <==> forall j :: 0 <= j < |rules| ==> !Matches(rules[j], name)
  {
    if rules == [] then []
    else
      var rest := Unmatched(rules[1..], name);
      assert forall j :: 1 <= j < |rules| ==> rules[j] == rules[1..][j - 1];
      if Matches(rules[0], name) then rest else [rules[0]] + rest
  }

  /** A name in the rule list: the first line, tag removed, stripped. */
  function RuleName(r: string): string
  {
    Strip(Replace(Split(r, "\n")[0], TAG, ""))
  }

  /** The names in the order of the rules. */
  function RuleNames(rules: seq<string>): (r: seq<string>)
    ensures |r| == |rules| && forall k :: 0 <= k < |rules| ==> r[k] == RuleName(rules[k])
  {
    if rules == [] then [] else RuleNames(rules[..|rules| - 1]) + [RuleName(rules[|rules| - 1])]
  }

  /** The rule `/rule_add` appends. */
  function NewRule(name: string, content: string): string
  {
    "\n\n    " + TAG + name + "\n" + IndentContent(content)
  }

  /** The rule `/rule_change` puts in place of the first match. */
  function ChangedRule(name: string, content: string): string
  {
    "\n    " + TAG + name + "\n" + IndentContent(content) + "\n"
  }

  /** A command's reply, and the text it saves (None when it saves nothing). */
  datatype Outcome = Outcome(reply: string, saved: Option<string>)

  /** `/rule_list`: the names joined by ", ", or "No hay reglas." when there is no rule. */
  function ListCommand(rules: seq<string>): Outcome
  {
    Outcome(if rules == [] then "No hay reglas." else Join(RuleNames(rules), ", "), None)
  }

  /** `/rule_show`: the first matching rule, stripped. */
  function ShowCommand(rules: seq<string>, name: string): Outcome
  {
    match FirstMatch(rules, name)
    case Some(i) => Outcome(Strip(rules[i]), None)
    case None => Outcome("Error: No existe.", None)
  }

  /** `/rule_del`: every matching rule goes. */
  function DeleteCommand(header: string, rules: seq<string>, name: string): Outcome
  {
    var kept := Unmatched(rules, name);
    if |kept| == |rules| then Outcome("Error: No existe.", None)
    else Outcome("Rule eliminada.", Some(SaveText(header, kept)))
  }

  /** `/rule_add`: a new rule at the end, unless one matches already. */
  function AddCommand(header: string, rules: seq<string>, name: string, content: string): Outcome
  {
    if FirstMatch(rules, name).Some? then Outcome("Error: Ya existe.", None)
    else Outcome("Rule añadida.", Some(SaveText(header, rules + [NewRule(name, content)])))
  }

  /** `/rule_change`: the first matching rule is replaced. */
  function ChangeCommand(header: string, rules: seq<string>, name: string, content: string): Outcome
  {
    match FirstMatch(rules, name)
    case None => Outcome("Error: No existe.", None)
    case Some(i) => Outcome("Rule modificada.", Some(SaveText(header, rules[i := ChangedRule(name, content)])))
  }

  /** `manage_rules(command, name, content)` on the file's current content. */
  function Manage(file: Option<string>, command: string, name: string, content: string): Outcome
  {
    var (header, rules) := ReadRules(file);
    if command == "/rule_list" then ListCommand(rules)
    else if command == "/rule_show" then ShowCommand(rules, name)
    else if command == "/rule_del" then DeleteCommand(header, rules, name)
    else if command == "/rule_add" then AddCommand(header, rules, name, content)
    else if command == "/rule_change" then ChangeCommand(header, rules, name, content)
    else Outcome("Comando no reconocido.", None)
  }

  /** Listing and showing never write, and listing gives "No hay reglas." when there is no
      rule; an unknown command writes nothing and says so. */
  lemma ManageReadOnly(file: Option<string>, command: string, name: string, content: string)
    ensures command == "/rule_list" || command == "/rule_show" ==> Manage(file, command, name, content).saved.None?
    ensures command != "/rule_list" && command != "/rule_show" && command != "/rule_del"
            && command != "/rule_add" && command != "/rule_change" ==>
      Manage(file, command, name, content) == Outcome("Comando no reconocido.", None)
    ensures command == "/rule_list" && ReadRules(file).1 == [] ==>
      Manage(file, command, name, content).reply == "No hay reglas."
  {
  }

  /** `/rule_show` gives the first rule holding the name's tag, stripped. */
  lemma ShowFirst(rules: seq<string>, name: string)
    ensures var o := ShowCommand(rules, name);
      && o.saved.None?
      && ((forall j :: 0 <= j < |rules| ==> !Matches(rules[j], name)) <==> o.reply == "Error: No existe." && FirstMatch(rules, name).None?)
      && (FirstMatch(rules, name).Some? ==>
            (exists i :: 0 <= i < |rules| && Matches(rules[i], name)
                         && (forall j :: 0 <= j < i ==> !Matches(rules[j], name)) && o.reply == Strip(rules[i])))
  {
  }

  /** `/rule_del`: every rule holding the name's tag goes, the others stay in order; when none
      holds it nothing is written. */
  lemma DeleteSpec(header: string, rules: seq<string>, name: string)
    ensures var o := DeleteCommand(header, rules, name);
      && (o.saved.None? <==> forall j :: 0 <= j < |rules| ==> !Matches(rules[j], name))
      && (o.saved.None? ==> o.reply == "Error: No existe.")
      && (o.saved.Some? ==> o.reply == "Rule eliminada." && o.saved.value == SaveText(header, Unmatched(rules, name)))
      && forall x :: x in Unmatched(rules, name) <==> x in rules && !Matches(x, name)
  {
  }

  /** `/rule_add`: refused, writing nothing, when a rule holds the name's tag; otherwise exactly
      one new rule, at the end, and the old rules stay as they were. */
  lemma AddSpec(header: string, rules: seq<string>, name: string, content: string)
    ensures var o := AddCommand(header, rules, name, content);
      && ((exists j :: 0 <= j < |rules| && Matches(rules[j], name)) <==> o == Outcome("Error: Ya existe.", None))
      && (o.saved.Some? ==>
            exists added :: |added| == |rules| + 1 && added[..|rules|] == rules
                            && added[|rules|] == NewRule(name, content)
                            && o.saved.value == SaveText(header, added))
  {
    var o := AddCommand(header, rules, name, content);
    if o.saved.Some? {
      var added := rules + [NewRule(name, content)];
      assert added[..|rules|] == rules;
    }
  }

  /** `/rule_change` with no rule holding the name's tag writes nothing. */
  lemma ChangeMissing(header: string, rules: seq<string>, name: string, content: string)
    ensures var o := ChangeCommand(header, rules, name, content);
      (o.saved.None? <==> forall j :: 0 <= j < |rules| ==> !Matches(rules[j], name))
      && (o.saved.None? ==> o.reply == "Error: No existe.")
  {
  }

  /** `/rule_change` otherwise replaces the first rule holding the tag and keeps every other. */
  lemma ChangeFirst(header: string, rules: seq<string>, name: string, content: string)
    requires exists j :: 0 <= j < |rules| && Matches(rules[j], name)
    ensures var o := ChangeCommand(header, rules, name, content);
      o.reply == "Rule modificada."
      && exists i, changed ::
           && 0 <= i < |rules| && Matches(rules[i], name)
           && (forall j :: 0 <= j < i ==> !Matches(rules[j], name))
           && |changed| == |rules| && changed[i] == ChangedRule(name, content)
           && (forall j :: 0 <= j < |rules| && j != i ==> changed[j] == rules[j])
           && o.saved == Some(SaveText(header, changed))
  {
    var i := FirstMatch(rules, name).value;
    var changed := rules[i := ChangedRule(name, content)];
    assert ChangeCommand(header, rules, name, content).saved == Some(SaveText(header, changed));
    assert 0 <= i < |rules| && Matches(rules[i], name);
    assert forall j :: 0 <= j < i ==> !Matches(rules[j], name);
    assert |changed| == |rules| && changed[i] == ChangedRule(name, content);
    assert forall j :: 0 <= j < |rules| && j != i ==> changed[j] == rules[j];
  }

  /** The substring match: deleting "a" deletes the rule "ab" as well. */
  lemma DeleteMatchesLongerName()
    ensures Unmatched(["#RULE:ab\n    pass"], "a") == []
  {
    assert OccursAt("#RULE:ab\n    pass", "#RULE:a", 0);
  }

  // ---------------------------------------------------------------- the command line

  /** How a message parses: nothing, a usage error, or a call of `manage_rules`. */
  datatype Command = Blank | Usage | Call(command: string, name: string, content: string)

  /** The parsing in `procesar_comando`: at most three whitespace-separated pieces, the first
      lowered. */
  function ParseCommand(msg: string): Command
  {
    var parts := SplitWs(msg, 2);
    if parts == [] then Blank
    else
      var command := Lower(parts[0]);
      if |parts| < 2 && command != "/rule_list" then Usage
      else Call(command, if |parts| > 1 then parts[1] else "", if |parts| > 2 then parts[2] else "")
  }

  /** `procesar_comando(mensaje_recibido)`. */
  function Process(file: Option<string>, msg: string): Outcome
  {
    match ParseCommand(msg)
    case Blank => Outcome("", None)
    case Usage => Outcome("Usa: /comando NOMBRE [contenido]", None)
    case Call(command, name, content) => Manage(file, command, name, content)
  }

  /**
   * How `split(None, 2)` cuts a message: the first word starts at a0 after leading
   * whitespace, and the second, if any, at a1; the third piece runs from a2 to the end.
   */
  lemma CommandPieces(msg: string)
    ensures var a0 := SkipSpace(msg, 0); var e0 := WordEnd(msg, a0); var a1 := SkipSpace(msg, e0);
      var e1 := WordEnd(msg, a1); var a2 := SkipSpace(msg, e1);
      && Gap(msg, 0, a0)
      && (a0 == |msg| <==> SplitWs(msg, 2) == [])
      && (a0 < |msg| ==> Word(msg, a0, e0) && Gap(msg, e0, a1))
      && (a0 < |msg| && a1 == |msg| ==> SplitWs(msg, 2) == [msg[a0..e0]])
      && (a0 < |msg| && a1 < |msg| ==>
            && e0 < a1 && Word(msg, a1, e1) && Gap(msg, e1, a2) && (a2 < |msg| ==> e1 < a2 && !IsSpace(msg[a2]))
            && SplitWs(msg, 2) == [msg[a0..e0], msg[a1..e1]] + (if a2 < |msg| then [msg[a2..]] else []))
  {
    var a0 := SkipSpace(msg, 0);
    if a0 < |msg| {
      var e0 := WordEnd(msg, a0);
      var a1 := SkipSpace(msg, e0);
      if a1 < |msg| {
        var e1 := WordEnd(msg, a1);
        var a2 := SkipSpace(msg, e1);
        var last := if a2 < |msg| then [msg[a2..]] else [];
        assert SplitWsFrom(msg, e1, 0) == last;
        assert SplitWsFrom(msg, e0, 1) == [msg[a1..e1]] + last;
        assert SplitWs(msg, 2) == [msg[a0..e0], msg[a1..e1]] + last;
      } else {
        assert SplitWsFrom(msg, e0, 1) == [];
        assert SplitWs(msg, 2) == [msg[a0..e0]];
      }
    }
  }

  /**
   * A blank message gives "" and a lone word other than `/rule_list` the usage text, neither
   * writing; a lone `/rule_list` is a call with neither name nor content, and its command is
   * the lowered word.
   */
  lemma ParseCommandSpec(msg: string)
    ensures ParseCommand(msg).Blank? <==> AllSpace(msg)
    ensures ParseCommand(msg).Blank? ==> Process(None, msg) == Outcome("", None)
    ensures ParseCommand(msg).Usage? ==>
      exists a0: nat, e0: nat :: Gap(msg, 0, a0) && Word(msg, a0, e0) && Gap(msg, e0, |msg|)
        && Lower(msg[a0..e0]) != "/rule_list"
    ensures var c := ParseCommand(msg);
      c.Call? && c.name == "" ==>
        && c.command == "/rule_list" && c.content == ""
        && exists a0: nat, e0: nat :: Gap(msg, 0, a0) && Word(msg, a0, e0) && Gap(msg, e0, |msg|)
             && c.command == Lower(msg[a0..e0])
  {
    SplitWsBlank(msg, 2);
    CommandPieces(msg);
  }

  /**
   * A call with a name is laid out as whitespace, the command word (lowered), whitespace and
   * the name word, then either only whitespace (no content), or whitespace and the content:
   * the rest of the message from its next non-whitespace character, trailing whitespace
   * included.
   */
  lemma ParseCommandWords(msg: string)
    ensures var c := ParseCommand(msg);
      c.Call? && c.name != "" && c.content == "" ==>
        exists a0: nat, e0: nat, a1: nat, e1: nat ::
          && Gap(msg, 0, a0) && Word(msg, a0, e0) && e0 < a1 && Gap(msg, e0, a1) && Word(msg, a1, e1)
          && Gap(msg, e1, |msg|)
          && c.command == Lower(msg[a0..e0]) && c.name == msg[a1..e1]
    ensures var c := ParseCommand(msg);
      c.Call? && c.content != "" ==>
        exists a0: nat, e0: nat, a1: nat, e1: nat, a2: nat ::
          && Gap(msg, 0, a0) && Word(msg, a0, e0) && e0 < a1 && Gap(msg, e0, a1) && Word(msg, a1, e1)
          && e1 < a2 < |msg| && Gap(msg, e1, a2) && !IsSpace(msg[a2])
          && c.command == Lower(msg[a0..e0]) && c.name == msg[a1..e1] && c.content == msg[a2..]
  {
    CommandPieces(msg);
  }

  // ---------------------------------------------------------------- the store

  class RuleStore {
    /** The rule file's content, or None when it cannot be opened. */
    var file: Option<string>

    constructor (content: Option<string>)
      ensures file == content
    {
      file := content;
    }

    /** `get_rules()`. */
    method GetRules() returns (header: string, rules: seq<string>)
      ensures (header, rules) == ReadRules(file)
    {
      if file.None? {
        return "", [];
      }
      var content := file.value;
      if !Contains(content, TAG) {
        return content, [];
      }
      var parts := Split(content, TAG);
      header := parts[0];
      rules := seq(|parts| - 1, k requires 0 <= k < |parts| - 1 => TAG + parts[k + 1]);
    }

    /** `save_rules(header, rules)`. */
    method SaveRules(header: string, rules: seq<string>)
      modifies this
      ensures file == Some(SaveText(header, rules))
    {
      file := Some(header + Strip(Concat(rules)) + "\n");
    }

    /** `manage_rules(command, name, content)`: the reply, and the file rewritten exactly when
        the command saves. */
    method ManageRules(command: string, name: string, content: string) returns (reply: string)
      modifies this
      ensures reply == Manage(old(file), command, name, content).reply
      ensures file == match Manage(old(file), command, name, content).saved
                      case None => old(file)
                      case Some(text) => Some(text)
    {
      var header, rules := GetRules();
      if command == "/rule_list" {
        reply := ListNames(rules);
      } else if command == "/rule_show" {
        reply := ShowRule(rules, name);
      } else if command == "/rule_del" {
        var kept := Unmatched(rules, name);
        if |kept| == |rules| {
          return "Error: No existe.";
        }
        SaveRules(header, kept);
        return "Rule eliminada.";
      } else if command == "/rule_add" {
        reply := AddRule(header, rules, name, content);
      } else if command == "/rule_change" {
        reply := ChangeRule(header, rules, name, content);
      } else {
        reply := "Comando no reconocido.";
      }
    }

    /** The `/rule_list` loop. */
    method ListNames(rules: seq<string>) returns (reply: string)
      ensures reply == ListCommand(rules).reply
    {
      var names: seq<string> := [];
      for k := 0 to |rules|
        invariant names == RuleNames(rules[..k])
      {
        assert rules[..k + 1][..k] == rules[..k];
        var linea := Split(rules[k], "\n")[0];
        names := names + [Strip(Replace(linea, TAG, ""))];
      }
      assert rules[..|rules|] == rules;
      return if names != [] then Join(names, ", ") else "No hay reglas.";
    }

    /** The `/rule_show` loop. */
    method ShowRule(rules: seq<string>, name: string) returns (reply: string)
      ensures reply == ShowCommand(rules, name).reply
    {
      for k := 0 to |rules|
        invariant forall j :: 0 <= j < k ==> !Matches(rules[j], name)
      {
        if Contains(rules[k], TAG + name) {
          return Strip(rules[k]);
        }
      }
      return "Error: No existe.";
    }

    /** The `/rule_add` branch. */
    method AddRule(header: string, rules: seq<string>, name: string, content: string) returns (reply: string)
      modifies this
      ensures reply == AddCommand(header, rules, name, content).reply
      ensures file == match AddCommand(header, rules, name, content).saved
                      case None => old(file)
                      case Some(text) => Some(text)
    {
      for k := 0 to |rules|
        invariant forall j :: 0 <= j < k ==> !Matches(rules[j], name)
      {
        if Contains(rules[k], TAG + name) {
          return "Error: Ya existe.";
        }
      }
      var indented := IndentContent(content);
      var newRule := "\n\n    " + TAG + name + "\n" + indented;
      SaveRules(header, rules + [newRule]);
      return "Rule añadida.";
    }

    /** The `/rule_change` branch: the enumerate loop with its `found` flag. */
    method ChangeRule(header: string, rules0: seq<string>, name: string, content: string) returns (reply: string)
      modifies this
      ensures reply == ChangeCommand(header, rules0, name, content).reply
      ensures file == match ChangeCommand(header, rules0, name, content).saved
                      case None => old(file)
                      case Some(text) => Some(text)
    {
      var rules := rules0;
      var found := false;
      var indented := IndentContent(content);
      var k := 0;
      while k < |rules|
        invariant k <= |rules| == |rules0|
        invariant !found && rules == rules0
        invariant forall j :: 0 <= j < k ==> !Matches(rules0[j], name)
      {
        if Contains(rules[k], TAG + name) {
          rules := rules[k := "\n    " + TAG + name + "\n" + indented + "\n"];
          found := true;
          FirstMatchAt(rules0, name, k);
          assert rules == rules0[k := ChangedRule(name, content)];
          break;
        }
        k := k + 1;
      }
      if !found {
        return "Error: No existe.";
      }
      SaveRules(header, rules);
      return "Rule modificada.";
    }

    /** `procesar_comando(mensaje_recibido)`. */
    method ProcessCommand(msg: string) returns (reply: string)
      modifies this
      ensures reply == Process(old(file), msg).reply
      ensures file == match Process(old(file), msg).saved
                      case None => old(file)
                      case Some(text) => Some(text)
    {
      var partes := SplitWs(msg, 2);
      if partes == [] {
        return "";
      }
      var comando := Lower(partes[0]);
      if |partes| < 2 && comando != "/rule_list" {
        return "Usa: /comando NOMBRE [contenido]";
      }
      var nombre := if |partes| > 1 then partes[1] else "";
      var contenido := if |partes| > 2 then partes[2] else "";
      reply := ManageRules(comando, nombre, contenido);
    }
  }
}
