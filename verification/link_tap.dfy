/**
  The link-tap resolver: a registry of phrase -> action bindings plus an
  optional default action, and the rule that decides which action a tap on a
  word fires.  The UIKit side (the gesture recogniser, hit-testing the tap to a
  text position and the word tokenizer) is replaced by its result: the tapped
  word, or `None` when one of those lookups failed.
 */
module LinkTap {
  import opened Wrappers
  import opened Strings

  type Url = string

  /** Closures are opaque: a caller-supplied callback, or the closure `setup`
      registers, which reports the URL of the link that was tapped. */
  datatype Action = Callback(id: nat) | OpenLink(url: Url)

  /** One run of the `.link` attribute: the attribute's value when it is a URL,
      and the run's range over the attributed string's text. */
  datatype LinkSpan = LinkSpan(url: Option<Url>, location: nat, length: nat)

  datatype AttributedText = AttributedText(text: string, links: seq<LinkSpan>)

  // ---------------------------------------------------------------------------
  // Phrase matching (didTapOnPhrase)
  // ---------------------------------------------------------------------------

  /** The characters that split a phrase into tokens: the four that
      `didTapOnPhrase` rewrites to a space, and the space itself. */
  const Separators: set<char> := {'@', '.', ':', '/', ' '}

  const Space: set<char> := {' '}

  /** `s[i..j]` is a maximal run of `s` that contains no character of `seps`. */
  predicate Delimited(s: string, i: int, j: int, seps: set<char>)
  {
    && 0 <= i <= j <= |s|
    && (i == 0 || s[i - 1] in seps)
    && (j == |s| || s[j] in seps)
    && forall k :: i <= k < j ==> s[k] !in seps
  }

  /** The meaning of a tap on `word` for the phrase `target`: the word equals,
      ignoring case, one separator-delimited token of the phrase. */
  ghost predicate TapMatches(word: string, target: string)
  {
    exists i, j :: Delimited(target, i, j, Separators) && EqualsIgnoringCase(target[i..j], word)
  }

  /** `s.replacingOccurrences(of: from, with: to)` for a one-character pattern. */
  function ReplacingOccurrences(s: string, from: char, to: char): (r: string)
    ensures |r| == |s|
    ensures from != to ==> from !in r
    ensures forall k :: 0 <= k < |s| ==> r[k] == s[k] || (s[k] == from && r[k] == to)
  {
    seq(|s|, k requires 0 <= k < |s| => if s[k] == from then to else s[k])
  }

  /** The four rewrites `didTapOnPhrase` applies before splitting. */
  function SpacedTarget(target: string): (r: string)
    ensures |r| == |target|
    ensures forall k :: 0 <= k < |target| ==> (r[k] in Space <==> target[k] in Separators)
    ensures forall k :: 0 <= k < |target| && target[k] !in Separators ==> r[k] == target[k]
  {
    var s := ReplacingOccurrences(target, '@', ' ');
    var s := ReplacingOccurrences(s, '.', ' ');
    var s := ReplacingOccurrences(s, ':', ' ');
    ReplacingOccurrences(s, '/', ' ')
  }

  /** Index of the first space of `s`, or `|s|` when there is none. */
  function FirstSpace(s: string): (n: nat)
    ensures n <= |s|
    ensures n < |s| ==> s[n] == ' '
    ensures forall k :: 0 <= k < n ==> s[k] != ' '
  {
    if s == [] || s[0] == ' ' then 0 else 1 + FirstSpace(s[1..])
  }

  /** `s.components(separatedBy: " ")`: the pieces between single spaces,
      empty pieces included. */
  function Components(s: string): (parts: seq<string>)
    ensures |parts| >= 1
    decreases |s|
  {
    var n := FirstSpace(s);
    if n == |s| then [s] else [s[..n]] + Components(s[n + 1..])
  }

  /** `parts.joined(separator: " ")`, the inverse of `Components`. */
  function Join(parts: seq<string>): string
    requires |parts| >= 1
  {
    if |parts| == 1 then parts[0] else parts[0] + [' '] + Join(parts[1..])
  }

  /** Splitting loses nothing: joining the components with single spaces gives
      the string back, and no component holds a space. */
  lemma {:induction false} JoinComponents(s: string)
    ensures Join(Components(s)) == s
    ensures forall m :: 0 <= m < |Components(s)| ==> ' ' !in Components(s)[m]
    decreases |s|
  {
    var n := FirstSpace(s);
    if n < |s| {
      JoinComponents(s[n + 1..]);
      assert s == s[..n] + [' '] + s[n + 1..];
      assert ' ' !in s[..n];
    } else {
      assert s[..n] == s;
      assert ' ' !in s;
    }
  }

  /** Past a space, the runs of `s` are the runs of the suffix, shifted. */
  lemma DelimitedAfterSpace(s: string, n: nat, i: int, j: int)
    requires n < |s| && s[n] == ' '
    requires n + 1 <= i <= j <= |s|
    ensures Delimited(s, i, j, Space) <==> Delimited(s[n + 1..], i - n - 1, j - n - 1, Space)
    ensures s[i..j] == s[n + 1..][i - n - 1..j - n - 1]
  {
    var rest := s[n + 1..];
    assert forall k :: i <= k < j ==> s[k] == rest[k - n - 1];
    assert forall k :: i - n - 1 <= k < j - n - 1 ==> rest[k] == s[k + n + 1];
  }

  /** The first component is the run before the first space. */
  lemma FirstComponent(s: string)
    ensures Delimited(s, 0, FirstSpace(s), Space)
    ensures Components(s)[0] == s[..FirstSpace(s)]
  {
  }

  /** Every component is a space-delimited run of the string. */
  lemma {:induction false} ComponentIsDelimited(s: string, m: nat)
    requires m < |Components(s)|
    ensures exists i, j :: Delimited(s, i, j, Space) && s[i..j] == Components(s)[m]
    decreases |s|
  {
    var n := FirstSpace(s);
    FirstComponent(s);
    if m == 0 {
      assert s[0..n] == Components(s)[0];
    } else {
      var rest := s[n + 1..];
      assert Components(s)[m] == Components(rest)[m - 1];
      ComponentIsDelimited(rest, m - 1);
      var i', j' :| Delimited(rest, i', j', Space) && rest[i'..j'] == Components(rest)[m - 1];
      DelimitedAfterSpace(s, n, i' + n + 1, j' + n + 1);
      assert Delimited(s, i' + n + 1, j' + n + 1, Space);
    }
  }

  /** Every space-delimited run of the string is a component. */
  lemma {:induction false} DelimitedIsComponent(s: string, i: int, j: int)
    requires Delimited(s, i, j, Space)
    ensures s[i..j] in Components(s)
    decreases |s|
  {
    var n := FirstSpace(s);
    if i == 0 {
      assert j == n;
      assert Components(s)[0] == s[i..j];
    } else {
      assert s[i - 1] in Space;
      assert n <= i - 1;
      var rest := s[n + 1..];
      assert Components(s) == [s[..n]] + Components(rest);
      DelimitedAfterSpace(s, n, i, j);
      DelimitedIsComponent(rest, i - n - 1, j - n - 1);
    }
  }

  /** The rewrite to spaces moves no token boundary and leaves tokens intact. */
  lemma SpacedTargetDelimited(target: string, i: int, j: int)
    requires 0 <= i <= j <= |target|
    ensures Delimited(SpacedTarget(target), i, j, Space) <==> Delimited(target, i, j, Separators)
    ensures Delimited(target, i, j, Separators) ==> SpacedTarget(target)[i..j] == target[i..j]
  {
  }

  /** `didTapOnPhrase`: rewrite the separators to spaces, split on spaces and
      compare each piece with the word, ignoring case. */
  method DidTapOnPhrase(word: string, target: string) returns (tapped: bool)
    ensures tapped <==> TapMatches(word, target)
  {
    var spaced := SpacedTarget(target);
    var parts := Components(spaced);
    for m := 0 to |parts|
      invariant forall m' :: 0 <= m' < m ==> !EqualsIgnoringCase(parts[m'], word)
    {
      if Lowercased(parts[m]) == Lowercased(word) {
        ComponentIsDelimited(spaced, m);
        ghost var i, j :| Delimited(spaced, i, j, Space) && spaced[i..j] == parts[m];
        SpacedTargetDelimited(target, i, j);
        assert Delimited(target, i, j, Separators) && EqualsIgnoringCase(target[i..j], word);
        return true;
      }
    }
    forall i, j | Delimited(target, i, j, Separators)
      ensures !EqualsIgnoringCase(target[i..j], word)
    {
      SpacedTargetDelimited(target, i, j);
      DelimitedIsComponent(spaced, i, j);
    }
    return false;
  }

  /** A phrase without any separator matches exactly the words equal to it
      ignoring case. */
  lemma PlainPhraseMatches(word: string, target: string)
    requires forall k :: 0 <= k < |target| ==> target[k] !in Separators
    ensures TapMatches(word, target) <==> EqualsIgnoringCase(target, word)
  {
    if EqualsIgnoringCase(target, word) {
      assert Delimited(target, 0, |target|, Separators) && target[0..|target|] == target;
    }
    if TapMatches(word, target) {
      var i, j :| Delimited(target, i, j, Separators) && EqualsIgnoringCase(target[i..j], word);
      assert i == 0 && j == |target|;
      assert target[i..j] == target;
    }
  }

  /** A tap on "Example" hits the phrase "user@example.com". */
  lemma EmailDomainMatches()
    ensures TapMatches("Example", "user@example.com")
  {
    var target := "user@example.com";
    assert Delimited(target, 5, 12, Separators);
    assert target[5..12] == "example";
    assert Lowercased("example") == Lowercased("Example");
  }

  // ---------------------------------------------------------------------------
  // Registrations made by setup
  // ---------------------------------------------------------------------------

  /** The attribute runs lie inside the text (NSAttributedString guarantees it). */
  predicate SpansWithin(text: string, links: seq<LinkSpan>)
  {
    forall m :: 0 <= m < |links| ==> links[m].location + links[m].length <= |text|
  }

  /** `uuSubString(location, length)` */
  function SpanText(text: string, span: LinkSpan): string
    requires span.location + span.length <= |text|
  {
    text[span.location..span.location + span.length]
  }

  /** `setup` registers `span` under `key`: a URL link over a non-empty range
      whose text, untrimmed, is `key` and is not whitespace only. */
  predicate RegistersKey(text: string, span: LinkSpan, key: string)
    requires span.location + span.length <= |text|
  {
    && span.url.Some?
    && span.length > 0
    && !AllWhitespace(SpanText(text, span))
    && SpanText(text, span) == key
  }

  /** The phrase map `setup` builds from the link runs, in enumeration order
      (a later run with the same text overwrites an earlier one). */
  function LinkActions(text: string, links: seq<LinkSpan>): map<string, Action>
    requires SpansWithin(text, links)
    decreases |links|
  {
    if links == [] then map[]
    else
      var previous := LinkActions(text, links[..|links| - 1]);
      var last := links[|links| - 1];
      if RegistersKey(text, last, SpanText(text, last))
      then previous[SpanText(text, last) := OpenLink(last.url.value)]
      else previous
  }

  /** The keys `setup` registers are exactly the texts of the qualifying runs. */
  lemma {:induction false} LinkActionsKeys(text: string, links: seq<LinkSpan>, key: string)
    requires SpansWithin(text, links)
    ensures key in LinkActions(text, links) <==>
            exists m :: 0 <= m < |links| && RegistersKey(text, links[m], key)
    decreases |links|
  {
    if links != [] {
      var init := links[..|links| - 1];
      LinkActionsKeys(text, init, key);
      assert forall m :: 0 <= m < |init| ==> init[m] == links[m];
    }
  }

  /** Each key maps to the URL of the LAST run registering it. */
  lemma {:induction false} LinkActionsValue(text: string, links: seq<LinkSpan>, key: string)
    requires SpansWithin(text, links)
    requires key in LinkActions(text, links)
    ensures exists m :: 0 <= m < |links| && RegistersKey(text, links[m], key)
                        && LinkActions(text, links)[key] == OpenLink(links[m].url.value)
                        && forall m' :: m < m' < |links| ==> !RegistersKey(text, links[m'], key)
    decreases |links|
  {
    var last := |links| - 1;
    if !RegistersKey(text, links[last], key) {
      var init := links[..last];
      assert forall m :: 0 <= m < |init| ==> init[m] == links[m];
      LinkActionsValue(text, init, key);
      var m :| 0 <= m < |init| && RegistersKey(text, init[m], key)
                && LinkActions(text, init)[key] == OpenLink(init[m].url.value)
                && forall m' :: m < m' < |init| ==> !RegistersKey(text, init[m'], key);
      assert RegistersKey(text, links[m], key);
    }
  }

  /** A link over whitespace only registers nothing, and the key of a link is
      its untrimmed text. */
  lemma SetupExamples()
    ensures LinkActions("a  b", [LinkSpan(Some("u"), 1, 2)]) == map[]
    ensures LinkActions("mail a@b.c", [LinkSpan(Some("u"), 4, 6)]) == map[" a@b.c" := OpenLink("u")]
  {
    var ws := LinkSpan(Some("u"), 1, 2);
    assert SpanText("a  b", ws) == "  ";
    assert AllWhitespace("  ");
    assert [ws][..0] == [];
    var mail := LinkSpan(Some("u"), 4, 6);
    assert SpanText("mail a@b.c", mail) == " a@b.c";
    assert !IsWhitespace(" a@b.c"[1]);
    assert [mail][..0] == [];
  }

  // ---------------------------------------------------------------------------
  // The handler
  // ---------------------------------------------------------------------------

  /** Some registered phrase matches `word`. */
  ghost predicate AnyKeyMatches(actions: map<string, Action>, word: string)
  {
    exists key :: key in actions && TapMatches(word, key)
  }

  class LinkTapGestureHandler {
    var actions: map<string, Action>
    var defaultAction: Option<Action>

    /** `init(_ view:)`; attaching the tap recogniser to the view is UIKit work. */
    constructor ()
      ensures actions == map[] && defaultAction == None
    {
      actions := map[];
      defaultAction := None;
    }

    /** Registers `action` under `text`, overwriting an existing binding. */
    method AddAction(text: string, action: Action)
      modifies this
      ensures text in actions && actions[text] == action
      ensures forall key :: key != text ==> (key in actions <==> key in old(actions))
      ensures forall key :: key != text && key in actions ==> actions[key] == old(actions)[key]
      ensures defaultAction == old(defaultAction)
    {
      actions := actions[text := action];
    }

    /** Drops every phrase binding; the default action stays. */
    method Reset()
      modifies this
      ensures actions == map[]
      ensures defaultAction == old(defaultAction)
    {
      actions := map[];
    }

    method SetupDefaultAction(action: Option<Action>)
      modifies this
      ensures defaultAction == action
      ensures actions == old(actions)
    {
      defaultAction := action;
    }

    /** Rebuilds the phrase map from the link runs of `attributed`: each run
        that carries a URL, is non-empty and is not whitespace only is
        registered under its untrimmed text with an action reporting its URL. */
    method Setup(attributed: Option<AttributedText>)
      requires attributed.Some? ==> SpansWithin(attributed.value.text, attributed.value.links)
      modifies this
      ensures attributed.None? ==> actions == map[]
      ensures attributed.Some? ==> actions == LinkActions(attributed.value.text, attributed.value.links)
      ensures defaultAction == old(defaultAction)
    {
      Reset();
      if attributed.Some? {
        var text, links := attributed.value.text, attributed.value.links;
        for m := 0 to |links|
          invariant actions == LinkActions(text, links[..m])
          invariant defaultAction == old(defaultAction)
        {
          assert links[..m + 1][..m] == links[..m];
          var span := links[m];
          if span.url.Some? && span.length > 0 {
            var substring := SpanText(text, span);
            if !AllWhitespace(substring) {
              AddAction(substring, OpenLink(span.url.value));
            }
          }
        }
        assert links[..|links|] == links;
      }
    }

    /** `handleTapGesture` once the tapped word is known (`None` when no word
        could be resolved): the first phrase, in the map's arbitrary order,
        that matches the word fires and nothing else does; failing that, the
        default action fires if there is one. */
    method HandleTapGesture(word: Option<string>) returns (fired: Option<Action>)
      ensures word.Some? && AnyKeyMatches(actions, word.value) ==>
                fired.Some? &&
                exists key :: key in actions && TapMatches(word.value, key) && fired.value == actions[key]
      ensures !(word.Some? && AnyKeyMatches(actions, word.value)) ==> fired == defaultAction
    {
      if word.Some? {
        var pending := actions.Keys;
        while pending != {}
          invariant pending <= actions.Keys
          invariant forall key :: key in actions && key !in pending ==> !TapMatches(word.value, key)
          decreases pending
        {
          var key :| key in pending;
          var tapped := DidTapOnPhrase(word.value, key);
          if tapped {
            return Some(actions[key]);
          }
          pending := pending - {key};
        }
      }
      return defaultAction;
    }
  }
}
