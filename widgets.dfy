/** The state-carrying parts of the Qt version's custom widgets: the mode
    switch, the double-click selection of compound words, and the font-size step. */
module Widgets {
  import opened Text

  /** The sliding mode switch. `enabled` is `_enabled`; `signalsBlocked` is
      what `blockSignals` sets. A method returns the value `stateChanged`
      delivers to its listener, or None when no signal reaches it. */
  class ToggleSwitch {
    var enabled: bool
    var signalsBlocked: bool

    constructor ()
      ensures !enabled && !signalsBlocked
    {
      enabled := false;
      signalsBlocked := false;
    }

    /** A click flips the state and announces the new one. */
    method MousePress() returns (signal: Option<bool>)
      modifies this
      ensures enabled == !old(enabled)
      ensures signalsBlocked == old(signalsBlocked)
      ensures signal == if signalsBlocked then None else Some(enabled)
    {
      enabled := !enabled;
      signal := if signalsBlocked then None else Some(enabled);
    }

    /** Setting the state announces it only when it actually changes. */
    method SetEnabled(e: bool) returns (signal: Option<bool>)
      modifies this
      ensures enabled == e
      ensures signalsBlocked == old(signalsBlocked)
      ensures signal == if old(enabled) != e && !signalsBlocked then Some(e) else None
    {
      signal := None;
      if enabled != e {
        enabled := e;
        if !signalsBlocked {
          signal := Some(e);
        }
      }
    }

    method BlockSignals(block: bool)
      modifies this
      ensures signalsBlocked == block
      ensures enabled == old(enabled)
    {
      signalsBlocked := block;
    }
  }

  /** The characters that may make up a compound word: ASCII letters and
      digits and `.`, `_`, `-`, `@`. */
  predicate IsWordChar(c: char)
  {
    ('a' <= c <= 'z') || ('A' <= c <= 'Z') || ('0' <= c <= '9') ||
    c == '.' || c == '_' || c == '-' || c == '@'
  }

  /** (s, e) is the selection (start, end) grown over word characters as far as they go. */
  ghost predicate IsExpansion(text: string, start: nat, end: nat, s: nat, e: nat)
  {
    && s <= start <= end <= e <= |text|
    && (forall i :: s <= i < start ==> IsWordChar(text[i]))
    && (forall i :: end <= i < e ==> IsWordChar(text[i]))
    && (s == 0 || !IsWordChar(text[s - 1]))
    && (e == |text| || !IsWordChar(text[e]))
  }

  /** The double-click handler: grow the word the cursor is in over the
      neighbouring word characters, first leftwards, then rightwards. */
  method ExpandSelection(text: string, start: nat, end: nat) returns (s: nat, e: nat)
    requires start <= end <= |text|
    ensures s <= start && end <= e <= |text|
    ensures forall i :: s <= i < start ==> IsWordChar(text[i])
    ensures forall i :: end <= i < e ==> IsWordChar(text[i])
    ensures s == 0 || !IsWordChar(text[s - 1])
    ensures e == |text| || !IsWordChar(text[e])
  {
    s := start;
    while s > 0 && IsWordChar(text[s - 1])
      invariant s <= start
      invariant forall i :: s <= i < start ==> IsWordChar(text[i])
    {
      s := s - 1;
    }
    e := end;
    while e < |text| && IsWordChar(text[e])
      invariant end <= e <= |text|
      invariant forall i :: end <= i < e ==> IsWordChar(text[i])
    {
      e := e + 1;
    }
  }

  /** The contract of ExpandSelection leaves no choice: the expansion is unique. */
  lemma ExpansionUnique(text: string, start: nat, end: nat, s1: nat, e1: nat, s2: nat, e2: nat)
    requires IsExpansion(text, start, end, s1, e1) && IsExpansion(text, start, end, s2, e2)
    ensures s1 == s2 && e1 == e2
  {
  }

  /** Double-clicking inside an expanded selection selects the same text again. */
  lemma ExpansionIdempotent(text: string, start: nat, end: nat, s: nat, e: nat, s': nat, e': nat)
    requires IsExpansion(text, start, end, s, e)
    requires s <= s' <= start && end <= e' <= e
    ensures IsExpansion(text, s', e', s, e)
  {
  }

  const MinFontSize: int := 6
  const MaxFontSize: int := 72

  /** Ctrl+wheel font step: `min(size + 1, 72)` or `max(size - 1, 6)`. A size
      already above 72 drops to 72 on a step up, one below 6 rises to 6 on a step down. */
  function FontStep(size: int, increase: bool): (r: int)
    ensures increase ==> (size < MaxFontSize ==> r == size + 1) && (size >= MaxFontSize ==> r == MaxFontSize)
    ensures !increase ==> (size > MinFontSize ==> r == size - 1) && (size <= MinFontSize ==> r == MinFontSize)
    ensures MinFontSize <= size <= MaxFontSize ==> MinFontSize <= r <= MaxFontSize
  {
    if increase then
      if size + 1 < MaxFontSize then size + 1 else MaxFontSize
    else
      if size - 1 > MinFontSize then size - 1 else MinFontSize
  }

  /** Within the range, a step down undoes a step up and vice versa. */
  lemma FontStepInverse(size: int)
    requires MinFontSize <= size <= MaxFontSize
    ensures size < MaxFontSize ==> FontStep(FontStep(size, true), false) == size
    ensures size > MinFontSize ==> FontStep(FontStep(size, false), true) == size
  {
  }

  /** The size after `n` wheel steps in the same direction. */
  function FontSteps(size: int, increase: bool, n: nat): int
    decreases n
  {
    if n == 0 then size else FontSteps(FontStep(size, increase), increase, n - 1)
  }

  /** n steps up from a size in range climb n points, stopping at 72. */
  lemma {:induction false} FontStepsUp(size: int, n: nat)
    requires MinFontSize <= size <= MaxFontSize
    ensures FontSteps(size, true, n) == if size + n < MaxFontSize then size + n else MaxFontSize
    decreases n
  {
    if n > 0 { FontStepsUp(FontStep(size, true), n - 1); }
  }

  /** n steps down from a size in range fall n points, stopping at 6. */
  lemma {:induction false} FontStepsDown(size: int, n: nat)
    requires MinFontSize <= size <= MaxFontSize
    ensures FontSteps(size, false, n) == if size - n > MinFontSize then size - n else MinFontSize
    decreases n
  {
    if n > 0 { FontStepsDown(FontStep(size, false), n - 1); }
  }
}
