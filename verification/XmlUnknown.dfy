/**
 * Unknown entities: the decoder moves its write pointer over a byte that it
 * does not write, which is right only when an ampersand happens to be there.
 */
module XmlUnknown {
  import opened XmlText

  /** An ampersand that starts neither a numeric reference nor an entity of the table. */
  predicate UnknownAt(s: string, p: nat, entities: bool)
    requires p < |s|
  {
    entities && s[p] == '&' && At(s, p + 1) != '#' && EntityIndex(s, p, 0) == NUM_ENTITIES
  }

  /** The text from p on, decoded with unknown entities kept as they are. */
  function Ideal(s: string, p: nat, newlines: bool, entities: bool): string
    requires p <= |s|
    decreases |s| - p
  {
    if p == |s| then ""
    else
      var step := OneStep(s, p, '&', newlines, entities);
      StepShrinks(s, p, '&', newlines, entities);
      step.add + Ideal(s, step.next, newlines, entities)
  }

  /** From p on, with the write pointer at q, an ampersand stands there at each unknown entity. */
  predicate Undisturbed(s: string, p: nat, q: nat, newlines: bool, entities: bool)
    requires q <= p <= |s|
    decreases |s| - p
  {
    p == |s| ||
    var step := OneStep(s, p, '&', newlines, entities);
    StepShrinks(s, p, '&', newlines, entities);
    && (UnknownAt(s, p, entities) ==> s[q] == '&')
    && Undisturbed(s, step.next, q + |step.add|, newlines, entities)
  }

  /** The byte at the write pointer matters at unknown entities only. */
  lemma StaleByte(s: string, p: nat, stale: char, newlines: bool, entities: bool)
    requires p < |s|
    ensures var step, kept := OneStep(s, p, stale, newlines, entities), OneStep(s, p, '&', newlines, entities);
        && step.next == kept.next && |step.add| == |kept.add|
        && (step.add == kept.add <==> !UnknownAt(s, p, entities) || stale == '&')
        && (UnknownAt(s, p, entities) ==> step.add == [stale] && kept.add == ['&'])
  {
  }

  lemma IdealUnfolds(s: string, p: nat, q: nat, kept: Step, newlines: bool, entities: bool)
    requires q <= p < |s| && kept == OneStep(s, p, '&', newlines, entities)
    ensures q + |kept.add| <= kept.next <= |s| && p < kept.next
    ensures Ideal(s, p, newlines, entities) == kept.add + Ideal(s, kept.next, newlines, entities)
    ensures Undisturbed(s, p, q, newlines, entities) <==>
        (UnknownAt(s, p, entities) ==> s[q] == '&') && Undisturbed(s, kept.next, q + |kept.add|, newlines, entities)
  {
    StepShrinks(s, p, '&', newlines, entities);
  }

  lemma {:induction false} Rounds(s: string, p: nat, out: string, newlines: bool, entities: bool)
    returns (step: Step, kept: Step)
    requires |out| <= p < |s|
    ensures p < kept.next == step.next <= |s| && |step.add| == |kept.add| && |out| + |kept.add| <= kept.next
    ensures step.add != kept.add ==> |kept.add| == 1
    ensures |out + step.add| <= step.next
    ensures Decode(s, p, out, newlines, entities) == Decode(s, step.next, out + step.add, newlines, entities)
    ensures Ideal(s, p, newlines, entities) == kept.add + Ideal(s, kept.next, newlines, entities)
    ensures Undisturbed(s, p, |out|, newlines, entities) <==>
        step.add == kept.add && Undisturbed(s, kept.next, |out| + |kept.add|, newlines, entities)
  {
    step, kept := OneStep(s, p, s[|out|], newlines, entities), OneStep(s, p, '&', newlines, entities);
    StaleByte(s, p, s[|out|], newlines, entities);
    IdealUnfolds(s, p, |out|, kept, newlines, entities);
    DecodeUnfolds(s, p, out, step, newlines, entities);
  }

  /** One round of both decodings: what they add, and where they go on. */
  lemma {:induction false} BothRounds(s: string, p: nat, out: string, newlines: bool, entities: bool)
    returns (add: string, kept: string, next: nat)
    requires |out| <= p < |s|
    ensures p < next <= |s| && |add| == |kept| && |out + add| <= next
    ensures Decode(s, p, out, newlines, entities) == Decode(s, next, out + add, newlines, entities)
    ensures Ideal(s, p, newlines, entities) == kept + Ideal(s, next, newlines, entities)
    ensures if add == kept then
        Undisturbed(s, p, |out|, newlines, entities) <==> Undisturbed(s, next, |out + add|, newlines, entities)
      else
        |add| == 1 && !Undisturbed(s, p, |out|, newlines, entities)
  {
    var step, keptStep := Rounds(s, p, out, newlines, entities);
    add, kept, next := step.add, keptStep.add, step.next;
    assert |out + add| == |out| + |keptStep.add|;
  }

  lemma {:induction false} KeptFrom(s: string, p: nat, out: string, newlines: bool, entities: bool)
    requires |out| <= p <= |s|
    ensures Decode(s, p, out, newlines, entities) == out + Ideal(s, p, newlines, entities)
        <==> Undisturbed(s, p, |out|, newlines, entities)
    decreases |s| - p
  {
    if p < |s| {
      var add, kept, next := BothRounds(s, p, out, newlines, entities);
      var rest := Ideal(s, next, newlines, entities);
      assert out + (kept + rest) == (out + kept) + rest;
      if add == kept {
        KeptFrom(s, next, out + add, newlines, entities);
      } else {
        assert out + add <= Decode(s, next, out + add, newlines, entities);
        assert (out + add)[|out|] == add[0] && (out + kept + rest)[|out|] == kept[0];
      }
    }
  }

  /** A text is decoded as intended exactly when no unknown entity meets another byte than an ampersand. */
  lemma {:induction false} UnknownKept(s: string, newlines: bool, entities: bool)
    ensures Decoded(s, newlines, entities) == Ideal(s, 0, newlines, entities) <==> Undisturbed(s, 0, 0, newlines, entities)
  {
    KeptFrom(s, 0, "", newlines, entities);
    assert "" + Ideal(s, 0, newlines, entities) == Ideal(s, 0, newlines, entities);
  }

  lemma {:induction false} NoneUnknown(s: string, p: nat, q: nat, newlines: bool, entities: bool)
    requires q <= p <= |s| && forall k :: p <= k < |s| ==> !UnknownAt(s, k, entities)
    ensures Undisturbed(s, p, q, newlines, entities)
    decreases |s| - p
  {
    if p < |s| {
      var step := OneStep(s, p, '&', newlines, entities);
      StepShrinks(s, p, '&', newlines, entities);
      NoneUnknown(s, step.next, q + |step.add|, newlines, entities);
    }
  }

  /** Without unknown entities a text is decoded as intended. */
  lemma {:induction false} AllKnown(s: string, newlines: bool, entities: bool)
    requires forall k :: 0 <= k < |s| ==> !UnknownAt(s, k, entities)
    ensures Decoded(s, newlines, entities) == Ideal(s, 0, newlines, entities)
  {
    NoneUnknown(s, 0, 0, newlines, entities);
    UnknownKept(s, newlines, entities);
  }

  /** An entity before it is enough: the second character of the text takes the ampersand's place. */
  lemma {:induction false} UnknownAfterKnown(newlines: bool)
    ensures Decoded("&lt;&x;", newlines, true) == "<lx;"
    ensures Ideal("&lt;&x;", 0, newlines, true) == "<&x;"
  {
    var s := "&lt;&x;";
    FirstRound(newlines);
    SecondRound('l', newlines);
    SecondRound('&', newlines);
    assert Ideal(s, 5, newlines, true) == "x" + (";" + "");
    assert Decode(s, 5, "<l", newlines, true) == "<l" + "x" + ";";
    assert Decode(s, 4, "<", newlines, true) == Decode(s, 5, "<" + "l", newlines, true);
    assert Decode(s, 0, "", newlines, true) == Decode(s, 4, "" + "<", newlines, true);
  }

  lemma {:induction false} FirstRound(newlines: bool)
    ensures OneStep("&lt;&x;", 0, '&', newlines, true) == Step("<", 4)
  {
    var s := "&lt;&x;";
    assert s[0..4] == "&lt;" == Reference(3);
    ReferenceIsFound(s, 0, 3);
  }

  lemma {:induction false} SecondRound(stale: char, newlines: bool)
    ensures OneStep("&lt;&x;", 4, stale, newlines, true) == Step([stale], 5)
  {
    var s := "&lt;&x;";
    assert EntityIndex(s, 4, 4) == EntityIndex(s, 4, 3) == EntityIndex(s, 4, 2) == 5;
    assert EntityIndex(s, 4, 1) == EntityIndex(s, 4, 0) == 5;
  }
}
