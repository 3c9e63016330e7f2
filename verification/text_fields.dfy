/**
  The text-field chain coordinator (`UUTextFieldDelegate`): an ordered list of
  managed fields, a configuration record, focus movement on "return", the
  maximum-length check on edits and the rewrite applied after each edit.
  A field is a value holding its text (Swift's `String?`) and whether it is
  the first responder; the UIKit objects themselves are not modelled.
 */
module TextFields {
  import opened Wrappers
  import opened Strings

  /** `UUTextFieldDelegate.Configuration`. */
  datatype Configuration = Configuration(
    allowedCharacters: Option<set<char>>,
    forceCapitalization: bool,
    autoDismissKeyboard: bool,
    maximumTextLength: Option<int>,
    dismissKeyboardWhenComplete: bool)

  /** `Configuration()` with every argument left at its default. */
  function DefaultConfiguration(): (c: Configuration)
    ensures c.allowedCharacters.None? && c.maximumTextLength.None?
    ensures !c.forceCapitalization && c.autoDismissKeyboard && c.dismissKeyboardWhenComplete
  {
    Configuration(None, false, true, None, true)
  }

  datatype TextField = TextField(text: Option<string>, focused: bool)

  /** `NSRange`: a location and a length over the field's text. */
  datatype TextRange = TextRange(location: nat, length: nat)

  // ---------------------------------------------------------------------------
  // Field-list specifications
  // ---------------------------------------------------------------------------

  /** `(textField.text?.count ?? 0) > 0`: a missing text counts as empty. */
  predicate HasText(f: TextField)
  {
    f.text.Some? && |f.text.value| > 0
  }

  predicate AllHaveText(fs: seq<TextField>)
  {
    forall k :: 0 <= k < |fs| ==> HasText(fs[k])
  }

  /** UIKit keeps at most one first responder. */
  predicate AtMostOneFocused(fs: seq<TextField>)
  {
    forall a, b :: 0 <= a < |fs| && 0 <= b < |fs| && fs[a].focused && fs[b].focused ==> a == b
  }

  /** Same fields with the same texts; only focus may differ. */
  predicate SameTexts(fs: seq<TextField>, gs: seq<TextField>)
  {
    |fs| == |gs| && forall k :: 0 <= k < |fs| ==> fs[k].text == gs[k].text
  }

  /** The first focused field in list order. */
  function FirstFocused(fs: seq<TextField>): (r: Option<nat>)
    ensures r.Some? ==> r.value < |fs| && fs[r.value].focused
    ensures r.Some? ==> forall k :: 0 <= k < r.value ==> !fs[k].focused
    ensures r.None? ==> forall k :: 0 <= k < |fs| ==> !fs[k].focused
  {
    if fs == [] then None
    else if fs[0].focused then Some(0)
    else match FirstFocused(fs[1..])
      case None => None
      case Some(k) => Some(k + 1)
  }

  /** `fields[j].becomeFirstResponder()`: field `j` gains focus and whichever
      field held it resigns. */
  function FocusedOn(fs: seq<TextField>, j: nat): (r: seq<TextField>)
    requires j < |fs|
    ensures SameTexts(fs, r)
    ensures forall k :: 0 <= k < |r| ==> (r[k].focused <==> k == j)
  {
    seq(|fs|, k requires 0 <= k < |fs| => fs[k].(focused := k == j))
  }

  /** `textField.resignFirstResponder()` on field `j` alone. */
  function Resigned(fs: seq<TextField>, j: nat): (r: seq<TextField>)
    requires j < |fs|
    ensures SameTexts(fs, r) && !r[j].focused
    ensures forall k :: 0 <= k < |r| && k != j ==> r[k] == fs[k]
  {
    fs[j := fs[j].(focused := false)]
  }

  /** The field list after `advanceToNextField`: focus moves from the first
      focused field to the next one, wrapping from the last to the first; with
      no focused field nothing changes. */
  function Advanced(fs: seq<TextField>): (r: seq<TextField>)
    ensures SameTexts(fs, r)
    ensures FirstFocused(fs).None? ==> r == fs
    ensures FirstFocused(fs).Some? && FirstFocused(fs).value + 1 < |fs| ==>
              forall k :: 0 <= k < |r| ==> (r[k].focused <==> k == FirstFocused(fs).value + 1)
    ensures FirstFocused(fs).Some? && FirstFocused(fs).value + 1 == |fs| ==>
              forall k :: 0 <= k < |r| ==> (r[k].focused <==> k == 0)
  {
    match FirstFocused(fs)
    case None => fs
    case Some(i) => if i == |fs| - 1 then FocusedOn(fs, 0) else FocusedOn(fs, i + 1)
  }

  /** The submitting field resigns. It is `Some(k)` for managed field `k`,
      and `None` for a field that still has this delegate but was dropped from
      the managed list by a later `addManagedTextFields`; its focus lies outside
      the list, so the list is unchanged. */
  function ResignedSubmitting(fs: seq<TextField>, submitting: Option<nat>): (r: seq<TextField>)
    requires submitting.Some? ==> submitting.value < |fs|
    ensures SameTexts(fs, r)
    ensures submitting.None? ==> r == fs
    ensures submitting.Some? ==> !r[submitting.value].focused
    ensures forall k :: 0 <= k < |r| && submitting != Some(k) ==> r[k] == fs[k]
  {
    if submitting.Some? then Resigned(fs, submitting.value) else fs
  }

  /** The decision `textFieldShouldReturn` makes for the submitting field. */
  function ReturnOutcome(config: Configuration, fs: seq<TextField>, submitting: Option<nat>): (r: seq<TextField>)
    requires submitting.Some? ==> submitting.value < |fs|
    ensures SameTexts(fs, r)
  {
    if config.dismissKeyboardWhenComplete && AllHaveText(fs) then ResignedSubmitting(fs, submitting)
    else if |fs| < 2 && config.autoDismissKeyboard then ResignedSubmitting(fs, submitting)
    else Advanced(fs)
  }

  /** Every focus change keeps UIKit's single first responder. */
  lemma ReturnKeepsSingleFocus(config: Configuration, fs: seq<TextField>, submitting: Option<nat>)
    requires submitting.Some? ==> submitting.value < |fs|
    requires AtMostOneFocused(fs)
    ensures AtMostOneFocused(ResignedSubmitting(fs, submitting))
    ensures AtMostOneFocused(Advanced(fs))
    ensures AtMostOneFocused(ReturnOutcome(config, fs, submitting))
  {
    var r := ResignedSubmitting(fs, submitting);
    forall a, b | 0 <= a < |r| && 0 <= b < |r| && r[a].focused && r[b].focused
      ensures a == b
    {
      assert fs[a].focused && fs[b].focused;
    }
  }

  /** Submitting the focused field of a complete form, with
      `dismissKeyboardWhenComplete` set, leaves no field focused. */
  lemma CompleteFormDismissesKeyboard(config: Configuration, fs: seq<TextField>, k: nat)
    requires k < |fs| && AtMostOneFocused(fs) && fs[k].focused
    requires config.dismissKeyboardWhenComplete && AllHaveText(fs)
    ensures forall j :: 0 <= j < |fs| ==> !ReturnOutcome(config, fs, Some(k))[j].focused
  {
    var r := ReturnOutcome(config, fs, Some(k));
    forall j | 0 <= j < |fs|
      ensures !r[j].focused
    {
      if j != k {
        assert !fs[j].focused;
      }
    }
  }

  /** A form that is not complete, or one whose completion does not dismiss,
      with two or more fields always advances, whichever field submits. */
  lemma IncompleteFormAdvances(config: Configuration, fs: seq<TextField>, submitting: Option<nat>)
    requires submitting.Some? ==> submitting.value < |fs|
    requires |fs| >= 2
    requires !(config.dismissKeyboardWhenComplete && AllHaveText(fs))
    ensures ReturnOutcome(config, fs, submitting) == Advanced(fs)
  {
  }

  /** Return in a field dropped from the managed list leaves the list alone
      when the form is complete or short, and otherwise still advances focus
      among the managed fields. */
  lemma UnmanagedFieldReturn(config: Configuration, fs: seq<TextField>)
    ensures ReturnOutcome(config, fs, None) ==
              if (config.dismissKeyboardWhenComplete && AllHaveText(fs)) || (|fs| < 2 && config.autoDismissKeyboard)
              then fs else Advanced(fs)
  {
  }

  /** Three fields, the first two filled and the second focused, completion
      dismisses: return on the second field moves focus to the third. */
  lemma ThirdFieldGetsFocus()
    ensures var fs := [TextField(Some("a"), false), TextField(Some("b"), true), TextField(Some(""), false)];
            var r := ReturnOutcome(DefaultConfiguration(), fs, Some(1));
            !r[0].focused && !r[1].focused && r[2].focused
  {
    var fs := [TextField(Some("a"), false), TextField(Some("b"), true), TextField(Some(""), false)];
    assert !HasText(fs[2]);
    assert FirstFocused(fs) == Some(1);
  }

  /** Three filled fields, the last focused, completion does not dismiss:
      return on the last field wraps focus to the first. */
  lemma FocusWrapsToFirstField()
    ensures var fs := [TextField(Some("a"), false), TextField(Some("b"), false), TextField(Some("c"), true)];
            var config := DefaultConfiguration().(dismissKeyboardWhenComplete := false);
            var r := ReturnOutcome(config, fs, Some(2));
            r[0].focused && !r[1].focused && !r[2].focused
  {
    var fs := [TextField(Some("a"), false), TextField(Some("b"), false), TextField(Some("c"), true)];
    assert FirstFocused(fs) == Some(2);
  }

  // ---------------------------------------------------------------------------
  // Maximum-length check (textField(_:shouldChangeCharactersIn:replacementString:))
  // ---------------------------------------------------------------------------

  /** `text.replacingCharacters(in: range, with: replacement)` */
  function ReplacingCharacters(text: string, range: TextRange, replacement: string): (r: string)
    requires range.location + range.length <= |text|
    ensures |r| == |text| - range.length + |replacement|
  {
    text[..range.location] + replacement + text[range.location + range.length..]
  }

  /** A replacement can be undone: replacing the inserted text with what the
      range held before gives the original text back. */
  lemma ReplacingCharactersUndo(text: string, range: TextRange, replacement: string)
    requires range.location + range.length <= |text|
    ensures var edited := ReplacingCharacters(text, range, replacement);
            ReplacingCharacters(edited, TextRange(range.location, |replacement|),
                                text[range.location..range.location + range.length]) == text
  {
    var loc, len := range.location, range.length;
    var edited := ReplacingCharacters(text, range, replacement);
    assert edited[..loc] == text[..loc];
    assert edited[loc + |replacement|..] == text[loc + len..];
    assert text == text[..loc] + text[loc..loc + len] + text[loc + len..];
  }

  /** Whether an edit may go ahead: with a maximum set, a text present and the
      range inside the text, the edited text must not exceed the maximum;
      otherwise the edit is always allowed. */
  function ShouldChangeCharacters(config: Configuration, text: Option<string>, range: TextRange,
                                  replacement: string): (allowed: bool)
    ensures allowed <==>
              || text.None?
              || range.location + range.length > |text.value|
              || config.maximumTextLength.None?
              || |text.value| - range.length + |replacement| <= config.maximumTextLength.value
  {
    if text.Some? && range.location + range.length <= |text.value| && config.maximumTextLength.Some?
    then |ReplacingCharacters(text.value, range, replacement)| <= config.maximumTextLength.value
    else true
  }

  // ---------------------------------------------------------------------------
  // Post-edit rewrite (textFieldChanged)
  // ---------------------------------------------------------------------------

  /** Drops the disallowed characters at the start of `s`. */
  function TrimLeading(s: string, allowed: set<char>): (r: string)
    ensures |r| <= |s| && r == s[|s| - |r|..]
    ensures forall k :: 0 <= k < |s| - |r| ==> s[k] !in allowed
    ensures r != [] ==> r[0] in allowed
  {
    if s == [] || s[0] in allowed then s else TrimLeading(s[1..], allowed)
  }

  /** Drops the disallowed characters at the end of `s`. */
  function TrimTrailing(s: string, allowed: set<char>): (r: string)
    ensures |r| <= |s| && r == s[..|r|]
    ensures forall k :: |r| <= k < |s| ==> s[k] !in allowed
    ensures r != [] ==> r[|r| - 1] in allowed
  {
    if s == [] || s[|s| - 1] in allowed then s else TrimTrailing(s[..|s| - 1], allowed)
  }

  /** `r` is `s[start..start + |r|]`, everything outside it is disallowed and
      `r` starts and ends with an allowed character. */
  predicate TrimmedAt(s: string, allowed: set<char>, start: nat, r: string)
  {
    && start + |r| <= |s|
    && r == s[start..start + |r|]
    && (forall k :: 0 <= k < start ==> s[k] !in allowed)
    && (forall k :: start + |r| <= k < |s| ==> s[k] !in allowed)
    && (r != [] ==> r[0] in allowed && r[|r| - 1] in allowed)
  }

  /** `s.trimmingCharacters(in: allowed.inverted)`: removes disallowed
      characters from both ends only; the interior is kept as it is. */
  function TrimmingDisallowed(s: string, allowed: set<char>): (r: string)
    ensures exists start :: TrimmedAt(s, allowed, start, r)
  {
    var lead := TrimLeading(s, allowed);
    var r := TrimTrailing(lead, allowed);
    assert TrimmedAt(s, allowed, |s| - |lead|, r);
    r
  }

  /** The two-ended trim is determined by its characterisation. */
  lemma TrimmedAtUnique(s: string, allowed: set<char>, start1: nat, r1: string, start2: nat, r2: string)
    requires TrimmedAt(s, allowed, start1, r1) && TrimmedAt(s, allowed, start2, r2)
    ensures r1 == r2
  {
    if r1 != [] && r2 != [] {
      assert s[start1] in allowed && s[start2] in allowed;
      assert start1 == start2;
      assert s[start1 + |r1| - 1] in allowed && s[start2 + |r2| - 1] in allowed;
      assert |r1| == |r2|;
    }
  }

  /** Trimming twice trims nothing more. */
  lemma TrimmingIdempotent(s: string, allowed: set<char>)
    ensures TrimmingDisallowed(TrimmingDisallowed(s, allowed), allowed) == TrimmingDisallowed(s, allowed)
  {
    var r := TrimmingDisallowed(s, allowed);
    assert r[0..|r|] == r;
    assert TrimmedAt(r, allowed, 0, r);
    var start :| TrimmedAt(r, allowed, start, TrimmingDisallowed(r, allowed));
    TrimmedAtUnique(r, allowed, 0, r, start, TrimmingDisallowed(r, allowed));
  }

  /** A text made of allowed characters only is kept as it is. */
  lemma TrimmingKeepsAllowedText(s: string, allowed: set<char>)
    requires forall k :: 0 <= k < |s| ==> s[k] in allowed
    ensures TrimmingDisallowed(s, allowed) == s
  {
    assert s[0..|s|] == s;
    assert TrimmedAt(s, allowed, 0, s);
    var start :| TrimmedAt(s, allowed, start, TrimmingDisallowed(s, allowed));
    TrimmedAtUnique(s, allowed, 0, s, start, TrimmingDisallowed(s, allowed));
  }

  /** The text `textFieldChanged` writes back: trimmed to the allowed set when
      one is configured, then upper-cased when capitalization is forced. */
  function TextAfterChange(config: Configuration, raw: string): (r: string)
    ensures |r| <= |raw|
    ensures config.allowedCharacters.None? ==>
              r == if config.forceCapitalization then Uppercased(raw) else raw
    ensures config.allowedCharacters.Some? ==>
              exists start, kept :: TrimmedAt(raw, config.allowedCharacters.value, start, kept)
                                    && r == if config.forceCapitalization then Uppercased(kept) else kept
    ensures config.forceCapitalization ==> forall k :: 0 <= k < |r| ==> !IsAsciiLower(r[k])
  {
    var trimmed := if config.allowedCharacters.Some?
                   then TrimmingDisallowed(raw, config.allowedCharacters.value)
                   else raw;
    if config.forceCapitalization then Uppercased(trimmed) else trimmed
  }

  const Digits: set<char> := set c | '0' <= c <= '9'

  /** The default configuration constrains nothing: every edit is allowed and
      the text after an edit is left as typed. */
  lemma DefaultConfigurationIsPermissive(text: Option<string>, range: TextRange, replacement: string, raw: string)
    ensures ShouldChangeCharacters(DefaultConfiguration(), text, range, replacement)
    ensures TextAfterChange(DefaultConfiguration(), raw) == raw
  {
  }

  /** Letters allowed and capitalization forced: "abc" becomes "ABC". */
  lemma LettersUpperCased()
    ensures TextAfterChange(Configuration(Some({'a', 'b', 'c'}), true, true, None, true), "abc") == "ABC"
  {
    var config := Configuration(Some({'a', 'b', 'c'}), true, true, None, true);
    AllowedTextKept(config, "abc");
    UppercasedAbc();
  }

  lemma UppercasedAbc()
    ensures Uppercased("abc") == "ABC"
  {
    var up := Uppercased("abc");
    assert up[0] == ToUpper('a') && up[1] == ToUpper('b') && up[2] == ToUpper('c');
  }

  /** Only the ends are trimmed: with digits allowed, "a1b2" keeps its
      interior "b" and becomes "1b2". */
  lemma TrimKeepsInterior()
    ensures TextAfterChange(DefaultConfiguration().(allowedCharacters := Some(Digits)), "a1b2") == "1b2"
  {
    var r := TextAfterChange(DefaultConfiguration().(allowedCharacters := Some(Digits)), "a1b2");
    assert 'a' !in Digits && '2' in Digits && '1' in Digits;
    assert TrimmedAt("a1b2", Digits, 1, "1b2");
    var start, kept :| TrimmedAt("a1b2", Digits, start, kept) && r == kept;
    TrimmedAtUnique("a1b2", Digits, 1, "1b2", start, kept);
  }

  /** A text made of allowed characters only is written back as it is, or
      upper-cased when capitalization is forced. */
  lemma AllowedTextKept(config: Configuration, raw: string)
    requires config.allowedCharacters.Some?
    requires forall k :: 0 <= k < |raw| ==> raw[k] in config.allowedCharacters.value
    ensures TextAfterChange(config, raw) == if config.forceCapitalization then Uppercased(raw) else raw
  {
    TrimmingKeepsAllowedText(raw, config.allowedCharacters.value);
  }

  // ---------------------------------------------------------------------------
  // The delegate
  // ---------------------------------------------------------------------------

  class TextFieldDelegate {
    var configuration: Configuration
    var fields: seq<TextField>

    /** `init(textFields:configuration:)`; `init()`, `init(configuration:)` and
        `init(textFields:)` are this with `[]` or `DefaultConfiguration()`. */
    constructor (configuration: Configuration, textFields: seq<TextField>)
      ensures this.configuration == configuration && fields == textFields
    {
      this.configuration := configuration;
      fields := textFields;
    }

    /** Replaces the managed list (installing the delegate and the change
        target on each field is UIKit work). */
    method AddManagedTextFields(textFields: seq<TextField>)
      modifies this
      ensures fields == textFields && configuration == old(configuration)
    {
      fields := textFields;
    }

    method AllFieldsHaveText() returns (complete: bool)
      ensures complete <==> AllHaveText(fields)
      ensures fields == [] ==> complete
    {
      complete := true;
      for m := 0 to |fields|
        invariant complete <==> forall k :: 0 <= k < m ==> HasText(fields[k])
      {
        if (if fields[m].text.Some? then |fields[m].text.value| else 0) <= 0 {
          complete := false;
        }
      }
    }

    /** The index of the first managed field that is first responder. */
    method FirstResponder() returns (index: Option<nat>)
      ensures index.Some? ==> index.value < |fields| && fields[index.value].focused
      ensures index.Some? ==> forall k :: 0 <= k < index.value ==> !fields[k].focused
      ensures index.None? ==> forall k :: 0 <= k < |fields| ==> !fields[k].focused
    {
      for m := 0 to |fields|
        invariant forall k :: 0 <= k < m ==> !fields[k].focused
      {
        if fields[m].focused {
          return Some(m);
        }
      }
      return None;
    }

    method BecomeFirstResponder(j: nat)
      requires j < |fields|
      modifies this
      ensures fields == FocusedOn(old(fields), j)
      ensures configuration == old(configuration)
    {
      fields := FocusedOn(fields, j);
    }

    method AdvanceToNextField()
      modifies this
      ensures fields == Advanced(old(fields))
      ensures configuration == old(configuration)
    {
      var focus := FirstResponder();
      assert focus == FirstFocused(fields);
      if focus.Some? {
        var index := focus.value;
        if index == |fields| - 1 {
          BecomeFirstResponder(0);
        } else {
          BecomeFirstResponder(index + 1);
        }
      }
    }

    /** Every managed field resigns: no field keeps focus, no text changes. */
    method ResignFirstResponder()
      modifies this
      ensures SameTexts(old(fields), fields)
      ensures forall k :: 0 <= k < |fields| ==> !fields[k].focused
      ensures configuration == old(configuration)
    {
      for m := 0 to |fields|
        invariant SameTexts(old(fields), fields)
        invariant forall k :: 0 <= k < m ==> !fields[k].focused
        invariant configuration == old(configuration)
      {
        fields := Resigned(fields, m);
      }
    }

    /** Return pressed in a field that has this delegate (`Some(k)` for
        managed field `k`, `None` for one no longer managed): dismiss, or move
        focus on. The answer is always "do not process the return". */
    method TextFieldShouldReturn(submitting: Option<nat>) returns (shouldProcess: bool)
      requires submitting.Some? ==> submitting.value < |fields|
      modifies this
      ensures !shouldProcess
      ensures fields == ReturnOutcome(old(configuration), old(fields), submitting)
      ensures configuration == old(configuration)
    {
      var complete := AllFieldsHaveText();
      if configuration.dismissKeyboardWhenComplete && complete {
        fields := ResignedSubmitting(fields, submitting);
        return false;
      }
      if |fields| < 2 && configuration.autoDismissKeyboard {
        fields := ResignedSubmitting(fields, submitting);
      } else {
        AdvanceToNextField();
      }
      return false;
    }

    /** After an edit of managed field `k`: its text, when present, is replaced
        by the rewritten text; nothing else changes. */
    method TextFieldChanged(k: nat)
      requires k < |fields|
      modifies this
      ensures old(fields)[k].text.None? ==> fields == old(fields)
      ensures old(fields)[k].text.Some? ==>
                fields == old(fields)[k := old(fields)[k].(text := Some(TextAfterChange(configuration, old(fields)[k].text.value)))]
      ensures configuration == old(configuration)
    {
      var edited := RewriteField(fields[k]);
      fields := fields[k := edited];
    }

    /** The rewrite `textFieldChanged` applies to any field it is called for,
        managed or one dropped from the managed list: a missing text is left
        alone, a present one becomes `TextAfterChange` of it; focus is kept and
        the delegate's state does not change. */
    method RewriteField(field: TextField) returns (edited: TextField)
      ensures edited.focused == field.focused
      ensures field.text.None? ==> edited == field
      ensures field.text.Some? ==> edited.text == Some(TextAfterChange(configuration, field.text.value))
    {
      edited := field;
      if field.text.Some? {
        var raw := field.text.value;
        var finalString := raw;
        if configuration.allowedCharacters.Some? {
          finalString := TrimmingDisallowed(raw, configuration.allowedCharacters.value);
        }
        if configuration.forceCapitalization {
          finalString := Uppercased(finalString);
        }
        edited := field.(text := Some(finalString));
      }
    }
  }
}
