/** The permission hook: labels offered on the phone, and the decision made from the one chosen. */
module Permissions {
  import opened Payload
  import Utf8

  /*
   Strings are byte strings, so lengths are in bytes; on its way to the phone a label that
   is not UTF-8 is repaired, and comes back repaired.
   */

  datatype Rule = Rule(toolName: string, ruleContent: string)

  datatype Label = Label(kind: string, destination: string, behavior: string, rules: seq<Rule>)

  /** A suggestion as raw JSON, with what decoding it gives; None when it does not decode. */
  datatype Suggestion = Suggestion(json: string, parsed: Option<Label>)

  function Truncate(s: string, maxLen: nat): (t: string)
    requires maxLen >= 3
    ensures |t| <= maxLen
    ensures |s| <= maxLen ==> t == s
    ensures |s| > maxLen ==> |t| == maxLen && t[..maxLen - 3] == s[..maxLen - 3] && t[maxLen - 3..] == "..."
  {
    if |s| <= maxLen then s else s[..maxLen - 3] + "..."
  }

  function ToolText(r: Rule): string {
    if r.ruleContent != "" then r.toolName + "(" + r.ruleContent + ")" else r.toolName
  }

  function ScopeText(tool: string, destination: string): string {
    if destination == "session" then "Allow " + tool + " for session"
    else if destination == "localSettings" then "Always allow " + tool
    else if destination == "projectSettings" then "Allow " + tool + " in project"
    else if destination == "userSettings" then "Always allow " + tool + " (global)"
    else "Allow " + tool + " (" + destination + ")"
  }

  /** The label of a suggestion, or "" when it has none: only rule additions are offered. */
  function FormatSuggestion(s: Suggestion): string {
    if s.parsed.None? then ""
    else
      var p := s.parsed.value;
      if p.kind != "addRules" || |p.rules| == 0 then ""
      else Truncate(ScopeText(ToolText(p.rules[0]), p.destination), 60)
  }

  /** No label is one of the two fixed choices, nor longer than 60 bytes. */
  lemma LabelsAreDistinctive(s: Suggestion)
    ensures |FormatSuggestion(s)| <= 60
    ensures FormatSuggestion(s) !in {"Deny", "Allow once"}
  {
    if FormatSuggestion(s) != "" {
      var p := s.parsed.value;
      ScopeTextIsNotFixed(ToolText(p.rules[0]), p.destination);
    }
  }

  lemma ScopeTextIsNotFixed(tool: string, destination: string)
    ensures ScopeText(tool, destination) !in {"Deny", "Allow once"}
  {
    var t := ScopeText(tool, destination);
    assert t[0] == 'A';
    if destination == "session" {
      assert |t| >= 18;
    } else if destination == "projectSettings" {
      assert |t| >= 17;
    } else if destination == "localSettings" || destination == "userSettings" {
      assert t[1] == 'l' && t[2] == 'w';
      assert "Allow once"[2] == 'l';
    } else {
      assert t[|t| - 1] == ')';
      assert "Allow once"[9] == 'e';
    }
  }

  /******* What a label says *******/

  /** Only a suggestion to add rules has a label. */
  predicate Offerable(s: Suggestion) {
    s.parsed.Some? && s.parsed.value.kind == "addRules" && s.parsed.value.rules != []
  }

  /** The label is the text, or its first 57 bytes and three dots when it is longer than 60. */
  predicate IsCut(name: string, text: string) {
    if |text| <= 60 then name == text else name == text[..57] + "..."
  }

  /** The label names the first rule with its content, and the scope it is granted for. */
  lemma LabelReads(s: Suggestion)
    ensures Offerable(s) ==>
              var name, r, destination := FormatSuggestion(s), s.parsed.value.rules[0], s.parsed.value.destination;
              var tool := if r.ruleContent == "" then r.toolName else r.toolName + "(" + r.ruleContent + ")";
              && (destination == "session" ==> IsCut(name, "Allow " + tool + " for session"))
              && (destination == "localSettings" ==> IsCut(name, "Always allow " + tool))
              && (destination == "projectSettings" ==> IsCut(name, "Allow " + tool + " in project"))
              && (destination == "userSettings" ==> IsCut(name, "Always allow " + tool + " (global)"))
              && (destination !in {"session", "localSettings", "projectSettings", "userSettings"} ==>
                    IsCut(name, "Allow " + tool + " (" + destination + ")"))
  {
    if Offerable(s) {
      CutReads(ScopeText(ToolText(s.parsed.value.rules[0]), s.parsed.value.destination));
    }
  }

  lemma Labelled(s: Suggestion)
    ensures FormatSuggestion(s) != "" <==> Offerable(s)
  {
    if Offerable(s) {
      CutReads(ScopeText(ToolText(s.parsed.value.rules[0]), s.parsed.value.destination));
    }
  }

  lemma CutReads(text: string)
    ensures IsCut(Truncate(text, 60), text)
    ensures text != "" ==> Truncate(text, 60) != ""
  {
    var t := Truncate(text, 60);
    if |text| > 60 {
      assert t == t[..57] + t[57..];
    }
  }

  lemma SameInside(before: string, a: string, b: string, after: string)
    requires before + a + after == before + b + after
    ensures a == b
  {
    var x, y := before + a + after, before + b + after;
    assert |a| == |b|;
    assert x[|before|..|before| + |a|] == a && y[|before|..|before| + |b|] == b;
  }

  lemma SameScope(a: string, b: string, destination: string)
    requires ScopeText(a, destination) == ScopeText(b, destination)
    ensures a == b
  {
    if destination == "session" {
      SameInside("Allow ", a, b, " for session");
    } else if destination == "localSettings" {
      SameInside("Always allow ", a, b, "");
    } else if destination == "projectSettings" {
      SameInside("Allow ", a, b, " in project");
    } else if destination == "userSettings" {
      SameInside("Always allow ", a, b, " (global)");
    } else {
      OtherScopeEnds(a, destination);
      OtherScopeEnds(b, destination);
      SameInside("Allow ", a, b, " (" + destination + ")");
    }
  }

  lemma OtherScopeEnds(tool: string, destination: string)
    requires destination !in {"session", "localSettings", "projectSettings", "userSettings"}
    ensures ScopeText(tool, destination) == "Allow " + tool + (" (" + destination + ")")
  {
  }

  lemma SameTool(tool: string, a: string, b: string)
    requires ToolText(Rule(tool, a)) == ToolText(Rule(tool, b))
    ensures a == b
  {
    if a != "" && b != "" {
      SameInside(tool + "(", a, b, ")");
    } else {
      assert |ToolText(Rule(tool, a))| == |tool| + if a == "" then 0 else |a| + 2;
      assert |ToolText(Rule(tool, b))| == |tool| + if b == "" then 0 else |b| + 2;
    }
  }

  /** Suggestions for one destination and one tool. */
  predicate SameSubject(s: Suggestion, t: Suggestion) {
    && Offerable(s) && Offerable(t)
    && s.parsed.value.destination == t.parsed.value.destination
    && s.parsed.value.rules[0].toolName == t.parsed.value.rules[0].toolName
  }

  /** Labels shorter than 60 bytes tell the contents of the rules apart. */
  lemma LabelNamesRule(s: Suggestion, t: Suggestion)
    requires SameSubject(s, t) && FormatSuggestion(s) == FormatSuggestion(t) && |FormatSuggestion(s)| < 60
    ensures s.parsed.value.rules[0].ruleContent == t.parsed.value.rules[0].ruleContent
  {
    var a, b, destination := s.parsed.value.rules[0], t.parsed.value.rules[0], s.parsed.value.destination;
    SameScope(ToolText(a), ToolText(b), destination);
    SameTool(a.toolName, a.ruleContent, b.ruleContent);
  }

  /******* Offering *******/

  function Labels(suggestions: seq<Suggestion>): (r: seq<string>) {
    if suggestions == [] then []
    else
      var front := Labels(suggestions[..|suggestions| - 1]);
      var name := FormatSuggestion(suggestions[|suggestions| - 1]);
      if name != "" then front + [name] else front
  }

  lemma {:induction false} LabelsAreOffered(suggestions: seq<Suggestion>, name: string)
    ensures name in Labels(suggestions) <==> name != "" && exists s :: s in suggestions && FormatSuggestion(s) == name
  {
    if suggestions == [] {
    } else {
      var front, last := suggestions[..|suggestions| - 1], suggestions[|suggestions| - 1];
      LabelsAreOffered(front, name);
      assert forall s :: s in suggestions <==> s in front || s == last;
    }
  }

  /** What each suggestion is labelled, if it is. */
  function Texts(suggestions: seq<Suggestion>): (texts: seq<string>)
    ensures |texts| == |suggestions| && forall k | 0 <= k < |texts| :: texts[k] == FormatSuggestion(suggestions[k])
  {
    seq(|suggestions|, k requires 0 <= k < |suggestions| => FormatSuggestion(suggestions[k]))
  }

  function NonEmpty(texts: seq<string>): (names: seq<string>) {
    if texts == [] then []
    else
      var last := texts[|texts| - 1];
      NonEmpty(texts[..|texts| - 1]) + if last != "" then [last] else []
  }

  /** `names` are the texts at the positions `at`, which are all that are not empty. */
  ghost predicate Picks(texts: seq<string>, names: seq<string>, at: seq<nat>) {
    && |at| == |names|
    && (forall i | 0 <= i < |at| :: at[i] < |texts| && names[i] == texts[at[i]])
    && (forall i, j | 0 <= i < j < |at| :: at[i] < at[j])
    && (forall k: nat :: k in at <==> k < |texts| && texts[k] != "")
  }

  lemma PicksLast(texts: seq<string>, names: seq<string>, at: seq<nat>, last: string)
    requires Picks(texts, names, at)
    ensures last != "" ==> Picks(texts + [last], names + [last], at + [|texts|])
    ensures last == "" ==> Picks(texts + [last], names, at)
  {
  }

  lemma {:induction false} NonEmptyInOrder(texts: seq<string>) returns (at: seq<nat>)
    ensures Picks(texts, NonEmpty(texts), at)
  {
    at := [];
    if texts != [] {
      var front, last := texts[..|texts| - 1], texts[|texts| - 1];
      at := NonEmptyInOrder(front);
      PicksLast(front, NonEmpty(front), at, last);
      assert texts == front + [last];
      at := at + if last != "" then [|front|] else [];
    }
  }

  lemma {:induction false} LabelsAreTexts(suggestions: seq<Suggestion>)
    ensures Labels(suggestions) == NonEmpty(Texts(suggestions))
  {
    if suggestions != [] {
      var front := suggestions[..|suggestions| - 1];
      LabelsAreTexts(front);
      assert Texts(suggestions)[..|suggestions| - 1] == Texts(front);
    }
  }

  /** The labels come in the order of their suggestions, one for each that can be offered. */
  lemma LabelsInOrder(suggestions: seq<Suggestion>) returns (at: seq<nat>)
    ensures |at| == |Labels(suggestions)|
    ensures forall i | 0 <= i < |at| :: at[i] < |suggestions| && Labels(suggestions)[i] == FormatSuggestion(suggestions[at[i]])
    ensures forall i, j | 0 <= i < j < |at| :: at[i] < at[j]
    ensures forall k: nat :: k in at <==> k < |suggestions| && Offerable(suggestions[k])
  {
    LabelsAreTexts(suggestions);
    at := NonEmptyInOrder(Texts(suggestions));
    forall k: nat | k < |suggestions| ensures Texts(suggestions)[k] != "" <==> Offerable(suggestions[k]) {
      Labelled(suggestions[k]);
    }
  }

  datatype Offer = Choice(actions: seq<string>) | Binary(actions: seq<string>)

  method SuggestionLabels(suggestions: seq<Suggestion>) returns (names: seq<string>)
    ensures names == Labels(suggestions)
  {
    names := [];
    for i := 0 to |suggestions|
      invariant names == Labels(suggestions[..i])
    {
      var name := FormatSuggestion(suggestions[i]);
      assert suggestions[..i + 1][..i] == suggestions[..i];
      if name != "" {
        names := names + [name];
      }
    }
    assert suggestions[..|suggestions|] == suggestions;
  }

  /** The fixed choices come first, so that they are on the notification's buttons. */
  function OfferFor(suggestions: seq<Suggestion>): Offer {
    var names := Labels(suggestions);
    if |names| > 0 then Choice(["Allow once", "Deny"] + names) else Binary(["Allow", "Deny"])
  }

  lemma LabelsOffered(suggestions: seq<Suggestion>)
    ensures Labels(suggestions) != [] <==> exists s :: s in suggestions && Offerable(s)
  {
    var at := LabelsInOrder(suggestions);
    if at != [] {
      assert at[0] in at;
      assert suggestions[at[0]] in suggestions;
    } else {
      forall s | s in suggestions ensures !Offerable(s) {
        var k :| 0 <= k < |suggestions| && suggestions[k] == s;
        assert k !in at;
      }
    }
  }

  method ChooseOffer(suggestions: seq<Suggestion>) returns (offer: Offer)
    ensures offer == OfferFor(suggestions)
    ensures offer.Choice? <==> exists s :: s in suggestions && Offerable(s)
    ensures offer.Choice? ==> offer.actions == ["Allow once", "Deny"] + Labels(suggestions)
    ensures offer.Binary? ==> offer.actions == ["Allow", "Deny"]
  {
    LabelsOffered(suggestions);
    var names := SuggestionLabels(suggestions);
    if |names| > 0 {
      offer := Choice(["Allow once", "Deny"] + names);
    } else {
      offer := Binary(["Allow", "Deny"]);
    }
  }

  /******* Deciding *******/

  datatype Decision = Allow(permission: Option<Suggestion>) | Deny

  ghost predicate FirstWith(suggestions: seq<Suggestion>, action: string, i: int) {
    && 0 <= i < |suggestions| && Bears(suggestions[i], action)
    && forall k | 0 <= k < i :: !Bears(suggestions[k], action)
  }

  predicate Bears(s: Suggestion, action: string) {
    FormatSuggestion(s) == action
  }

  /** Which suggestions bear the label. */
  function Bearings(suggestions: seq<Suggestion>, action: string): (bs: seq<bool>)
    ensures |bs| == |suggestions| && forall k | 0 <= k < |bs| :: bs[k] == Bears(suggestions[k], action)
  {
    seq(|suggestions|, k requires 0 <= k < |suggestions| => Bears(suggestions[k], action))
  }

  /** Position of the first true at or after `i`, or the length when there is none. */
  function FirstTrue(bs: seq<bool>, i: nat): (k: nat)
    requires i <= |bs| && forall j | 0 <= j < i :: !bs[j]
    ensures k <= |bs| && (k < |bs| ==> bs[k]) && forall j | 0 <= j < k :: !bs[j]
    decreases |bs| - i
  {
    if i == |bs| || bs[i] then i else FirstTrue(bs, i + 1)
  }

  /** The first suggestion with the chosen label. */
  function Matched(suggestions: seq<Suggestion>, action: string): Option<Suggestion> {
    var k := FirstTrue(Bearings(suggestions, action), 0);
    if k < |suggestions| then Some(suggestions[k]) else None
  }

  lemma MatchedIsFirst(suggestions: seq<Suggestion>, action: string, i: nat)
    requires FirstWith(suggestions, action, i)
    ensures Matched(suggestions, action) == Some(suggestions[i])
  {
    assert Bearings(suggestions, action)[i];
  }

  lemma MatchedNone(suggestions: seq<Suggestion>, action: string)
    requires forall s | s in suggestions :: !Bears(s, action)
    ensures Matched(suggestions, action) == None
  {
    var bs := Bearings(suggestions, action);
    forall k | 0 <= k < |bs| ensures !bs[k] {
      assert suggestions[k] in suggestions;
    }
  }

  lemma MatchedPosition(suggestions: seq<Suggestion>, action: string) returns (i: nat)
    requires Matched(suggestions, action).Some?
    ensures FirstWith(suggestions, action, i) && Matched(suggestions, action) == Some(suggestions[i])
  {
    i := FirstTrue(Bearings(suggestions, action), 0);
  }

  method MatchSuggestion(suggestions: seq<Suggestion>, action: string) returns (m: Option<Suggestion>)
    ensures m == Matched(suggestions, action)
  {
    for i := 0 to |suggestions|
      invariant forall k | 0 <= k < i :: !Bears(suggestions[k], action)
    {
      if Bears(suggestions[i], action) {
        MatchedIsFirst(suggestions, action, i);
        return Some(suggestions[i]);
      }
    }
    MatchedNone(suggestions, action);
    m := None;
  }

  function Decide(suggestions: seq<Suggestion>, action: string, accepted: Option<bool>): Decision {
    if action == "Deny" then Deny
    else if action == "Allow once" then Allow(None)
    else if action != "" then Allow(Matched(suggestions, action))
    else if accepted == Some(true) then Allow(None)
    else Deny
  }

  /** Denied only on request; a permission is the first suggestion that bears the chosen label. */
  method ChooseDecision(suggestions: seq<Suggestion>, action: string, accepted: Option<bool>) returns (d: Decision)
    ensures d.Deny? <==> action == "Deny" || (action == "" && accepted != Some(true))
    ensures d.Allow? ==> (d.permission.Some? <==> action in Labels(suggestions))
    ensures d.Allow? && d.permission.Some? ==>
              exists i :: FirstWith(suggestions, action, i) && d.permission.value == suggestions[i]
    ensures d == Decide(suggestions, action, accepted)
  {
    DecisionMeans(suggestions, action, accepted);
    if action == "Deny" {
      d := Deny;
    } else if action == "Allow once" {
      d := Allow(None);
    } else if action != "" {
      var m := MatchSuggestion(suggestions, action);
      d := Allow(m);
    } else if accepted == Some(true) {
      d := Allow(None);
    } else {
      d := Deny;
    }
  }

  /** What came back: the error code it was probed for, and the response if it decodes as one. */
  datatype Reply = Reply(code: string, response: Option<NotificationResponse>)

  /**
   An error record or an undecodable reply ends the flow as failed without a decision, so
   that the agent falls back to asking locally; any other reply completes it.
   */
  method HandlePermissionResponse(suggestions: seq<Suggestion>, reply: Reply) returns (ended: FlowStatus, d: Option<Decision>)
    ensures d.Some? <==> reply.code == "" && reply.response.Some?
    ensures ended == if d.Some? then Completed else Failed
    ensures d.Some? ==>
              var action, accepted := reply.response.value.action, reply.response.value.accepted;
              && (d.value.Deny? <==> action == "Deny" || (action == "" && accepted != Some(true)))
              && (d.value.Allow? ==> (d.value.permission.Some? <==> action in Labels(suggestions)))
              && (d.value.Allow? && d.value.permission.Some? ==>
                    exists i :: FirstWith(suggestions, action, i) && d.value.permission.value == suggestions[i])
    ensures d.Some? ==> d.value == Decide(suggestions, reply.response.value.action, reply.response.value.accepted)
  {
    if reply.code != "" || reply.response.None? {
      return Failed, None;
    }
    var chosen := ChooseDecision(suggestions, reply.response.value.action, reply.response.value.accepted);
    return Completed, Some(chosen);
  }

  lemma FirstMatch(suggestions: seq<Suggestion>, action: string, i: nat) returns (k: nat)
    requires i < |suggestions| && Bears(suggestions[i], action)
    ensures k <= i && FirstWith(suggestions, action, k)
  {
    assert Bearings(suggestions, action)[i];
    k := FirstTrue(Bearings(suggestions, action), 0);
  }

  /** Choosing the label of suggestion `i` byte for byte allows, with the first suggestion that bears it. */
  lemma MatchedLabelAllows(suggestions: seq<Suggestion>, i: nat, accepted: Option<bool>)
    requires i < |suggestions| && FormatSuggestion(suggestions[i]) != ""
    ensures var name := FormatSuggestion(suggestions[i]);
            var d := Decide(suggestions, name, accepted);
            && name in OfferFor(suggestions).actions
            && d.Allow? && d.permission.Some? && d.permission.value in suggestions
            && FormatSuggestion(d.permission.value) == name
            && (d.permission.value == suggestions[i] <==>
                exists k :: FirstWith(suggestions, name, k) && suggestions[k] == suggestions[i])
  {
    var name := FormatSuggestion(suggestions[i]);
    LabelsAreDistinctive(suggestions[i]);
    assert suggestions[i] in suggestions;
    LabelsAreOffered(suggestions, name);
    var k := FirstMatch(suggestions, name, i);
    MatchedIsFirst(suggestions, name, k);
  }

  /******* Across the wire *******/

  /** Text decoded from JSON is UTF-8. */
  predicate WellEncoded(s: Suggestion) {
    s.parsed.Some? ==>
      && Utf8.Valid(s.parsed.value.destination)
      && forall r | r in s.parsed.value.rules :: Utf8.Valid(r.toolName) && Utf8.Valid(r.ruleContent)
  }

  /** The label before it is cut. */
  function FullText(s: Suggestion): string
    requires FormatSuggestion(s) != ""
  {
    ScopeText(ToolText(s.parsed.value.rules[0]), s.parsed.value.destination)
  }

  /** The label is not cut, or cut between two characters. */
  predicate CutBetweenCharacters(s: Suggestion)
    requires FormatSuggestion(s) != ""
  {
    |FullText(s)| <= 60 || !Utf8.Continuation(FullText(s)[57])
  }

  lemma ToolTextValid(r: Rule)
    requires Utf8.Valid(r.toolName) && Utf8.Valid(r.ruleContent)
    ensures Utf8.Valid(ToolText(r))
  {
    Utf8.AsciiValid("(");
    Utf8.AsciiValid(")");
    Utf8.ValidAppend(r.toolName, "(");
    Utf8.ValidAppend(r.toolName + "(", r.ruleContent);
    Utf8.ValidAppend(r.toolName + "(" + r.ruleContent, ")");
  }

  lemma Wrapped(before: string, text: string, after: string)
    requires Utf8.Valid(text) && forall c | c in before + after :: c as int < 0x80
    ensures Utf8.Valid(before + text + after) && Utf8.Valid(before + text)
  {
    assert forall i | 0 <= i < |before| :: before[i] in before + after;
    assert forall i | 0 <= i < |after| :: after[i] in before + after;
    Utf8.AsciiValid(before);
    Utf8.AsciiValid(after);
    Utf8.ValidAppend(before, text);
    Utf8.ValidAppend(before + text, after);
  }

  lemma OtherScopeValid(tool: string, destination: string)
    requires Utf8.Valid(tool) && Utf8.Valid(destination)
    ensures Utf8.Valid("Allow " + tool + " (" + destination + ")")
  {
    Wrapped("Allow ", tool, " (");
    Wrapped("", destination, ")");
    assert "" + destination + ")" == destination + ")";
    Utf8.ValidAppend("Allow " + tool + " (", destination + ")");
    assert ("Allow " + tool + " (") + (destination + ")") == "Allow " + tool + " (" + destination + ")";
  }

  lemma AllowValid(tool: string)
    requires Utf8.Valid(tool)
    ensures Utf8.Valid("Allow " + tool + " for session") && Utf8.Valid("Allow " + tool + " in project")
  {
    Wrapped("Allow ", tool, " for session");
    Wrapped("Allow ", tool, " in project");
  }

  lemma AlwaysValid(tool: string)
    requires Utf8.Valid(tool)
    ensures Utf8.Valid("Always allow " + tool) && Utf8.Valid("Always allow " + tool + " (global)")
  {
    Wrapped("Always allow ", tool, " (global)");
  }

  lemma ScopeTextValid(tool: string, destination: string)
    requires Utf8.Valid(tool) && Utf8.Valid(destination)
    ensures Utf8.Valid(ScopeText(tool, destination))
  {
    AllowValid(tool);
    AlwaysValid(tool);
    OtherScopeValid(tool, destination);
  }

  lemma TruncateValid(text: string)
    requires Utf8.Valid(text)
    ensures Utf8.Valid(Truncate(text, 60)) <==> |text| <= 60 || !Utf8.Continuation(text[57])
  {
    if |text| > 60 {
      Utf8.CutValid(text, 57);
      Utf8.AsciiValid("...");
      if Utf8.Valid(text[..57]) {
        Utf8.ValidAppend(text[..57], "...");
      } else {
        Utf8.InvalidAppend(text[..57], "...");
      }
    }
  }

  /** A label comes back as it was offered exactly when its cut does not split a character. */
  lemma LabelSurvivesWire(s: Suggestion)
    requires WellEncoded(s) && FormatSuggestion(s) != ""
    ensures Utf8.Repaired(FormatSuggestion(s)) == FormatSuggestion(s) <==> CutBetweenCharacters(s)
    ensures !CutBetweenCharacters(s) ==> |Utf8.Repaired(FormatSuggestion(s))| > 60
  {
    var r, text := s.parsed.value.rules[0], FullText(s);
    ToolTextValid(r);
    ScopeTextValid(ToolText(r), s.parsed.value.destination);
    TruncateValid(text);
    Utf8.RepairedExactly(Truncate(text, 60));
  }

  lemma NoLabelThatLong(suggestions: seq<Suggestion>, action: string, accepted: Option<bool>)
    requires |action| > 60
    ensures Decide(suggestions, action, accepted) == Allow(None)
  {
    forall s | s in suggestions ensures FormatSuggestion(s) != action {
      LabelsAreDistinctive(s);
    }
    MatchedNone(suggestions, action);
  }

  /**
   Choosing the label of suggestion `i` on the phone always allows. It grants that very
   suggestion exactly when the label's cut splits no character and the first suggestion
   with the label is equal to it; when a character is split, it grants none.
   */
  lemma ChosenLabelAllows(suggestions: seq<Suggestion>, i: nat, accepted: Option<bool>)
    requires i < |suggestions| && FormatSuggestion(suggestions[i]) != "" && WellEncoded(suggestions[i])
    ensures var s, name := suggestions[i], FormatSuggestion(suggestions[i]);
            var d := Decide(suggestions, Utf8.Repaired(name), accepted);
            && name in OfferFor(suggestions).actions && d.Allow?
            && (d.permission == Some(s) <==>
                CutBetweenCharacters(s) && exists k :: FirstWith(suggestions, name, k) && suggestions[k] == s)
            && (CutBetweenCharacters(s) ==> d.permission.Some? && FormatSuggestion(d.permission.value) == name)
            && (!CutBetweenCharacters(s) ==> d.permission.None?)
  {
    LabelSurvivesWire(suggestions[i]);
    MatchedLabelAllows(suggestions, i, accepted);
    if !CutBetweenCharacters(suggestions[i]) {
      NoLabelThatLong(suggestions, Utf8.Repaired(FormatSuggestion(suggestions[i])), accepted);
    }
  }

  /** Offered alone, a suggestion whose cut splits a character cannot be granted. */
  lemma SplitCharacterLosesPermission(s: Suggestion, accepted: Option<bool>)
    requires FormatSuggestion(s) != "" && WellEncoded(s) && !CutBetweenCharacters(s)
    ensures FormatSuggestion(s) in OfferFor([s]).actions
    ensures Decide([s], Utf8.Repaired(FormatSuggestion(s)), accepted) == Allow(None)
  {
    ChosenLabelAllows([s], 0, accepted);
  }

  function SessionRule(tool: string): Suggestion {
    Suggestion("1", Some(Label("addRules", "session", "allow", [Rule(tool, "")])))
  }

  /** Such as one with a two-byte character on bytes 56 and 57. */
  lemma CharacterSplit(tool: string)
    requires |tool| == 50 && Utf8.Valid(tool)
    ensures var s := SessionRule(tool + "\U{C3}\U{A9}");
            FormatSuggestion(s) != "" && WellEncoded(s) && !CutBetweenCharacters(s)
  {
    var e := "\U{C3}\U{A9}";
    PairValid(tool, e);
    SessionEncoded(tool + e);
    ByteInside(tool, e);
    SessionText(tool + e);
  }

  lemma PairValid(tool: string, e: string)
    requires Utf8.Valid(tool) && e == "\U{C3}\U{A9}"
    ensures Utf8.Valid(tool + e)
  {
    assert Utf8.RuneSize(e) == 2 && e[2..] == "";
    Utf8.ValidAppend(tool, e);
  }

  lemma OneRuleEncoded(s: Suggestion, rule: Rule)
    requires s.parsed.Some? && s.parsed.value.rules == [rule]
    requires Utf8.Valid(s.parsed.value.destination) && Utf8.Valid(rule.toolName) && Utf8.Valid(rule.ruleContent)
    ensures WellEncoded(s)
  {
  }

  lemma SessionEncoded(tool: string)
    requires Utf8.Valid(tool)
    ensures WellEncoded(SessionRule(tool))
  {
    var s := SessionRule(tool);
    var destination := s.parsed.value.destination;
    Utf8.AsciiValid(destination);
    OneRuleEncoded(s, s.parsed.value.rules[0]);
  }

  lemma SessionText(tool: string)
    requires |ScopeText(tool, "session")| > 60
    ensures FormatSuggestion(SessionRule(tool)) != "" && FullText(SessionRule(tool)) == ScopeText(tool, "session")
  {
    assert ToolText(Rule(tool, "")) == tool;
  }

  lemma ByteInside(tool: string, e: string)
    requires |tool| == 50 && |e| == 2
    ensures |ScopeText(tool + e, "session")| > 60 && ScopeText(tool + e, "session")[57] == e[1]
  {
    assert ScopeText(tool + e, "session") == ("Allow " + tool) + (e + " for session");
  }

  /** With distinct labels every choice gets the suggestion it names. */
  lemma DistinctLabelsInvert(suggestions: seq<Suggestion>, i: nat, accepted: Option<bool>)
    requires i < |suggestions| && FormatSuggestion(suggestions[i]) != ""
    requires forall j | 0 <= j < i :: FormatSuggestion(suggestions[j]) != FormatSuggestion(suggestions[i])
    ensures Decide(suggestions, FormatSuggestion(suggestions[i]), accepted) == Allow(Some(suggestions[i]))
  {
    LabelsAreDistinctive(suggestions[i]);
    MatchedIsFirst(suggestions, FormatSuggestion(suggestions[i]), i);
  }

  /** So does the choice of a label shorter than 60 bytes among rules of one tool and destination with contents of their own. */
  lemma ShortLabelsInvert(suggestions: seq<Suggestion>, i: nat, accepted: Option<bool>)
    requires i < |suggestions| && Offerable(suggestions[i]) && |FormatSuggestion(suggestions[i])| < 60
    requires forall j | 0 <= j < i && Offerable(suggestions[j]) ::
               && SameSubject(suggestions[j], suggestions[i])
               && suggestions[j].parsed.value.rules[0].ruleContent != suggestions[i].parsed.value.rules[0].ruleContent
    ensures Decide(suggestions, FormatSuggestion(suggestions[i]), accepted) == Allow(Some(suggestions[i]))
  {
    Labelled(suggestions[i]);
    forall j | 0 <= j < i ensures FormatSuggestion(suggestions[j]) != FormatSuggestion(suggestions[i]) {
      Labelled(suggestions[j]);
      if FormatSuggestion(suggestions[j]) == FormatSuggestion(suggestions[i]) {
        LabelNamesRule(suggestions[j], suggestions[i]);
      }
    }
    DistinctLabelsInvert(suggestions, i, accepted);
  }

  /** The two fixed choices never carry a permission, and denial is the only other outcome. */
  lemma FixedChoices(suggestions: seq<Suggestion>, action: string, accepted: Option<bool>)
    ensures Decide(suggestions, "Deny", accepted) == Deny && Decide(suggestions, "Allow once", accepted) == Allow(None)
    ensures Decide(suggestions, action, accepted).Deny? <==> action == "Deny" || (action == "" && accepted != Some(true))
    ensures Decide(suggestions, action, accepted).Allow? && Decide(suggestions, action, accepted).permission.Some?
            ==> action in Labels(suggestions)
  {
    DecisionMeans(suggestions, action, accepted);
  }

  lemma FixedChoicesAreNoLabels(suggestions: seq<Suggestion>, action: string)
    requires action in {"", "Deny", "Allow once"}
    ensures action !in Labels(suggestions)
  {
    LabelsAreOffered(suggestions, action);
    forall s | s in suggestions ensures FormatSuggestion(s) == "" || FormatSuggestion(s) != action {
      LabelsAreDistinctive(s);
    }
  }

  lemma DecisionMeans(suggestions: seq<Suggestion>, action: string, accepted: Option<bool>)
    ensures var d := Decide(suggestions, action, accepted);
            && (d.Deny? <==> action == "Deny" || (action == "" && accepted != Some(true)))
            && (d.Allow? ==> (d.permission.Some? <==> action in Labels(suggestions)))
            && (d.Allow? && d.permission.Some? ==>
                  exists i :: FirstWith(suggestions, action, i) && d.permission.value == suggestions[i])
  {
    if action in {"", "Deny", "Allow once"} {
      FixedChoicesAreNoLabels(suggestions, action);
    } else {
      MatchedMeans(suggestions, action);
    }
  }

  lemma MatchedMeans(suggestions: seq<Suggestion>, action: string)
    requires action != ""
    ensures Matched(suggestions, action).Some? <==> action in Labels(suggestions)
    ensures Matched(suggestions, action).Some? ==>
              exists i :: FirstWith(suggestions, action, i) && Matched(suggestions, action).value == suggestions[i]
  {
    LabelsAreOffered(suggestions, action);
    if Matched(suggestions, action).Some? {
      var i := MatchedPosition(suggestions, action);
      assert suggestions[i] in suggestions && Bears(suggestions[i], action);
    } else if action in Labels(suggestions) {
      var s :| s in suggestions && FormatSuggestion(s) == action;
      var i :| 0 <= i < |suggestions| && suggestions[i] == s;
      var k := FirstMatch(suggestions, action, i);
      MatchedIsFirst(suggestions, action, k);
    }
  }

  /**
   Labels are cut to 57 bytes and dots, so two long rules can share one: choosing the
   second then grants the first.
   */
  lemma TruncatedLabelsCollide(tool: string, a: char, b: char)
    requires |tool| >= 51 && a != b
    ensures var first := Suggestion("1", Some(Label("addRules", "session", "allow", [Rule(tool + [a], "")])));
            var second := Suggestion("2", Some(Label("addRules", "session", "allow", [Rule(tool + [b], "")])));
            && FormatSuggestion(first) == FormatSuggestion(second) != ""
            && Decide([first, second], FormatSuggestion(second), None) == Allow(Some(first))
  {
    var first := Suggestion("1", Some(Label("addRules", "session", "allow", [Rule(tool + [a], "")])));
    var second := Suggestion("2", Some(Label("addRules", "session", "allow", [Rule(tool + [b], "")])));
    var x, y := ScopeText(tool + [a], "session"), ScopeText(tool + [b], "session");
    assert x == ("Allow " + tool) + ([a] + " for session") && y == ("Allow " + tool) + ([b] + " for session");
    assert x[..57] == ("Allow " + tool)[..57] == y[..57];
    LabelsAreDistinctive(first);
    MatchedIsFirst([first, second], FormatSuggestion(second), 0);
  }
}
