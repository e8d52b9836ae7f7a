/**
 * Escaping text for XML, and the decoding of it in place.
 */
module XmlText {
  import opened Strings
  import opened Words
  import opened Utf8Text

  const NUL := '\0'
  const LF := '\n'
  const CR := '\r'

  datatype Entity = Entity(pattern: string, value: char)

  const NUM_ENTITIES := 5
  const ENTITIES: seq<Entity> := [
    Entity("quot", '\"'), Entity("amp", '&'), Entity("apos", '\''), Entity("lt", '<'), Entity("gt", '>')]

  // ---- Printing ----

  /** The table index of an entity's value, or NUM_ENTITIES. */
  function IndexOfValue(c: char, i: nat): (k: nat)
    requires i <= NUM_ENTITIES
    ensures i <= k <= NUM_ENTITIES
    ensures k < NUM_ENTITIES ==> ENTITIES[k].value == c
    ensures forall j :: i <= j < k ==> ENTITIES[j].value != c
    decreases NUM_ENTITIES - i
  {
    if i == NUM_ENTITIES || ENTITIES[i].value == c then i else IndexOfValue(c, i + 1)
  }

  /** The characters that are escaped: all values of the table, or in text only three of them. */
  predicate Flagged(c: char, restricted: bool) {
    if restricted then c == '&' || c == '<' || c == '>' else IndexOfValue(c, 0) < NUM_ENTITIES
  }

  function Reference(k: nat): string
    requires k < NUM_ENTITIES
  {
    "&" + ENTITIES[k].pattern + ";"
  }

  function Escape(c: char, restricted: bool): string {
    if Flagged(c, restricted) && IndexOfValue(c, 0) < NUM_ENTITIES then Reference(IndexOfValue(c, 0)) else [c]
  }

  function Escaped(s: string, restricted: bool): string {
    if s == "" then "" else Escaped(s[..|s| - 1], restricted) + Escape(s[|s| - 1], restricted)
  }

  lemma FlaggedHasEntity(c: char, restricted: bool)
    ensures Flagged(c, restricted) ==> IndexOfValue(c, 0) < NUM_ENTITIES
  {
    assert ENTITIES[1].value == '&' && ENTITIES[3].value == '<' && ENTITIES[4].value == '>';
  }

  class XmlPrinter {
    var buffer: string
    const processEntities: bool

    constructor (processEntities: bool)
      ensures buffer == "" && this.processEntities == processEntities
    {
      buffer := "";
      this.processEntities := processEntities;
    }

    method Write(data: string)
      modifies this
      ensures buffer == old(buffer) + data
    {
      buffer := buffer + data;
    }

    /** Writes the reference of an escaped character. */
    method PutReference(c: char)
      requires IndexOfValue(c, 0) < NUM_ENTITIES
      modifies this
      ensures buffer == old(buffer) + Reference(IndexOfValue(c, 0))
    {
      var i := 0;
      while i < NUM_ENTITIES && ENTITIES[i].value != c
        invariant i <= NUM_ENTITIES && IndexOfValue(c, i) == IndexOfValue(c, 0)
      {
        i := i + 1;
      }
      Write("&");
      Write(ENTITIES[i].pattern);
      Write(";");
      assert buffer == old(buffer) + ("&" + ENTITIES[i].pattern + ";");
    }

    /** Writes the run of plain characters from p to q. */
    method Flush(s: string, p: nat, q: nat, ghost start: string, ghost written: string)
      requires p <= q <= |s| && buffer == start + written
      modifies this
      ensures buffer == start + (written + s[p..q])
    {
      if p < q {
        Write(s[p..q]);
      }
    }

    /** Looks at one character: an escaped one is written with the run before it. */
    method PrintOne(s: string, p: nat, q: nat, restricted: bool, ghost start: string, ghost written: string)
      returns (p': nat, ghost written': string)
      requires p <= q < |s| && buffer == start + written && written + s[p..q] == Escaped(s[..q], restricted)
      modifies this
      ensures p' <= q + 1 && buffer == start + written'
      ensures written' + s[p'..q + 1] == Escaped(s[..q + 1], restricted)
    {
      p', written' := p, written;
      NextEscape(s, q, restricted);
      FlaggedHasEntity(s[q], restricted);
      if Flagged(s[q], restricted) {
        Flush(s, p, q, start, written);
        PutReference(s[q]);
        Regroup(start, written + s[p..q], Reference(IndexOfValue(s[q], 0)));
        p', written' := q + 1, Escaped(s[..q + 1], restricted);
      } else {
        OneLonger(s, p, q);
        Regroup(written, s[p..q], [s[q]]);
      }
    }

    /** PrintString: runs of plain characters are flushed before each escaped one. */
    method PrintString(s: string, restricted: bool)
      modifies this
      ensures buffer == old(buffer) + if processEntities then Escaped(s, restricted) else s
    {
      if processEntities {
        PrintEscaped(s, restricted);
      } else {
        Write(s);
      }
    }

    /** The loop that looks for characters to escape. */
    method PrintEscaped(s: string, restricted: bool)
      modifies this
      ensures buffer == old(buffer) + Escaped(s, restricted)
    {
      var p: nat, q: nat := 0, 0;
      ghost var written := "";
      while q < |s|
        invariant p <= q <= |s|
        invariant buffer == old(buffer) + written
        invariant written + s[p..q] == Escaped(s[..q], restricted)
      {
        p, written := PrintOne(s, p, q, restricted, old(buffer), written);
        q := q + 1;
      }
      assert s[..|s|] == s;
      Flush(s, p, q, old(buffer), written);
    }
  }

  lemma OneLonger(s: string, p: nat, q: nat)
    requires p <= q < |s|
    ensures s[p..q + 1] == s[p..q] + [s[q]]
  {
  }

  lemma NextEscape(s: string, q: nat, restricted: bool)
    requires q < |s|
    ensures Escaped(s[..q + 1], restricted) == Escaped(s[..q], restricted) + Escape(s[q], restricted)
  {
    assert s[..q + 1][..q] == s[..q];
  }

  // ---- Character references ----

  /** The byte at index i of a C string. */
  function At(s: string, i: nat): char {
    if i < |s| then s[i] else NUL
  }

  /** strchr. */
  function Find(s: string, i: nat, c: char): (k: nat)
    requires i <= |s|
    ensures i <= k <= |s| && (k < |s| ==> s[k] == c)
    decreases |s| - i
  {
    if i == |s| || s[i] == c then i else Find(s, i + 1, c)
  }

  function Digit(c: char): nat {
    if '0' <= c <= '9' then c as nat - '0' as nat
    else if 'a' <= c <= 'f' then c as nat - 'a' as nat + 10
    else if 'A' <= c <= 'F' then c as nat - 'A' as nat + 10
    else 16
  }

  datatype Number = NotANumber | Number(value: nat)

  /** The digits before index q back to the nearest mark, with the source's 32-bit products. */
  function DigitsBack(s: string, lo: nat, q: nat, mark: char, radix: nat, mult: nat, ucs: nat): Number
    requires lo < q <= |s| && s[lo] == mark
    decreases q
  {
    var c := s[q - 1];
    if c == mark then Number(ucs)
    else if Digit(c) >= radix then NotANumber
    else if lo < q - 1 then
      DigitsBack(s, lo, q - 1, mark, radix, mult * radix % TWO32, (ucs + mult * Digit(c) % TWO32) % TWO64)
    else assert false; NotANumber
  }

  /** NoRef: the source's null pointer. */
  datatype CharRef = NoRef | Ref(value: string, next: nat)

  function RefOf(s: string, p: nat): CharRef
    requires p < |s|
  {
    if At(s, p + 1) == '#' && At(s, p + 2) != NUL then
      if s[p + 2] == 'x' then
        if At(s, p + 3) == NUL then NoRef else RefTo(s, p, p + 2, Find(s, p + 3, ';'), 'x', 16)
      else RefTo(s, p, p + 1, Find(s, p + 2, ';'), '#', 10)
    else Ref("", p + 1)
  }

  function RefTo(s: string, p: nat, lo: nat, semicolon: nat, mark: char, radix: nat): CharRef
    requires p <= lo < semicolon <= |s| && s[lo] == mark
  {
    if semicolon == |s| then NoRef
    else match DigitsBack(s, lo, semicolon, mark, radix, 1, 0)
      case NotANumber => NoRef
      case Number(n) => Ref(Utf8(n), semicolon + 1)
  }

  /** A character reference is never shorter than the bytes it stands for. */
  lemma RefShrinks(s: string, p: nat)
    requires p < |s| && RefOf(s, p).Ref?
    ensures p + |RefOf(s, p).value| <= RefOf(s, p).next <= |s| && p < RefOf(s, p).next
  {
  }

  // ---- Decoding ----

  predicate EntityAt(s: string, p: nat, i: nat)
    requires i < NUM_ENTITIES
  {
    var pattern := ENTITIES[i].pattern;
    p + 1 + |pattern| < |s| && s[p + 1..p + 1 + |pattern|] == pattern && s[p + 1 + |pattern|] == ';'
  }

  /** The table index of the entity at p, or NUM_ENTITIES. */
  function EntityIndex(s: string, p: nat, i: nat): (k: nat)
    requires i <= NUM_ENTITIES
    ensures i <= k <= NUM_ENTITIES && (k < NUM_ENTITIES ==> EntityAt(s, p, k))
    decreases NUM_ENTITIES - i
  {
    if i == NUM_ENTITIES || EntityAt(s, p, i) then i else EntityIndex(s, p, i + 1)
  }

  datatype Step = Step(add: string, next: nat)

  /**
   * What one round of the decoding loop reads and writes: stale is the byte at the write pointer,
   * which an unknown entity leaves as it is.
   */
  function OneStep(s: string, p: nat, stale: char, newlines: bool, entities: bool): Step
    requires p < |s|
  {
    var c := s[p];
    if newlines && c == CR then Step([LF], if At(s, p + 1) == LF then p + 2 else p + 1)
    else if newlines && c == LF then Step([LF], if At(s, p + 1) == CR then p + 2 else p + 1)
    else if entities && c == '&' then
      if At(s, p + 1) == '#' then
        match RefOf(s, p)
        case NoRef => Step(['&'], p + 1)
        case Ref(value, next) => Step(value, next)
      else
        var k := EntityIndex(s, p, 0);
        if k < NUM_ENTITIES then Step([ENTITIES[k].value], p + |ENTITIES[k].pattern| + 2)
        else Step([stale], p + 1)
    else Step([c], p + 1)
  }

  /** The write pointer cannot pass the read pointer. */
  lemma StepShrinks(s: string, p: nat, stale: char, newlines: bool, entities: bool)
    requires p < |s|
    ensures var step := OneStep(s, p, stale, newlines, entities);
        p + |step.add| <= step.next <= |s| && p < step.next
  {
    if s[p] == '&' && At(s, p + 1) == '#' && RefOf(s, p).Ref? {
      RefShrinks(s, p);
    }
  }

  /** What the loop makes of s from p on, having written out. */
  function Decode(s: string, p: nat, out: string, newlines: bool, entities: bool): (r: string)
    requires |out| <= p <= |s|
    ensures |r| <= |s| && out <= r
    decreases |s| - p
  {
    if p == |s| then out
    else
      var step := OneStep(s, p, s[|out|], newlines, entities);
      StepShrinks(s, p, s[|out|], newlines, entities);
      Decode(s, step.next, out + step.add, newlines, entities)
  }

  function Decoded(s: string, newlines: bool, entities: bool): string {
    Decode(s, 0, "", newlines, entities)
  }

  lemma DecodeUnfolds(s: string, p: nat, out: string, step: Step, newlines: bool, entities: bool)
    requires |out| <= p < |s| && step == OneStep(s, p, s[|out|], newlines, entities)
    ensures |out + step.add| <= step.next <= |s|
    ensures Decode(s, p, out, newlines, entities) == Decode(s, step.next, out + step.add, newlines, entities)
  {
    StepShrinks(s, p, s[|out|], newlines, entities);
  }

  /** A round depends on the text from p on only. */
  lemma StepAhead(s: string, p: nat, stale: char, newlines: bool, entities: bool)
    requires p < |s|
    ensures var here, ahead := OneStep(s, p, stale, newlines, entities), OneStep(s[p..], 0, stale, newlines, entities);
        here.add == ahead.add && here.next == p + ahead.next
  {
    EntityAhead(s, p, 0);
    RefAhead(s, p);
  }

  lemma {:induction false} EntityAhead(s: string, p: nat, i: nat)
    requires p < |s| && i <= NUM_ENTITIES
    ensures EntityIndex(s[p..], 0, i) == EntityIndex(s, p, i)
    decreases NUM_ENTITIES - i
  {
    if i < NUM_ENTITIES {
      var n := |ENTITIES[i].pattern|;
      if p + 1 + n < |s| {
        assert s[p..][1..1 + n] == s[p + 1..p + 1 + n];
      }
      EntityAhead(s, p, i + 1);
    }
  }

  lemma {:induction false} FindAhead(s: string, p: nat, i: nat, c: char)
    requires p + i <= |s|
    ensures p + Find(s[p..], i, c) == Find(s, p + i, c)
    decreases |s| - i
  {
    if p + i < |s| && s[p + i] != c {
      FindAhead(s, p, i + 1, c);
    }
  }

  lemma {:induction false} DigitsAhead(s: string, p: nat, lo: nat, q: nat, mark: char, radix: nat, mult: nat, ucs: nat)
    requires lo < q <= |s| - p && s[p + lo] == mark
    ensures DigitsBack(s[p..], lo, q, mark, radix, mult, ucs) == DigitsBack(s, p + lo, p + q, mark, radix, mult, ucs)
    decreases q
  {
    if lo < q - 1 {
      var d := Digit(s[p + q - 1]);
      DigitsAhead(s, p, lo, q - 1, mark, radix, mult * radix % TWO32, (ucs + mult * d % TWO32) % TWO64);
    }
  }

  lemma RefAhead(s: string, p: nat)
    requires p < |s|
    ensures var here, ahead := RefOf(s, p), RefOf(s[p..], 0);
        if here.NoRef? then ahead.NoRef?
        else ahead.Ref? && here.value == ahead.value && here.next == p + ahead.next
  {
    if At(s, p + 1) == '#' && At(s, p + 2) != NUL {
      if s[p + 2] == 'x' {
        if At(s, p + 3) != NUL {
          FindAhead(s, p, 3, ';');
          DigitsAhead(s, p, 2, Find(s[p..], 3, ';'), 'x', 16, 1, 0);
        }
      } else {
        FindAhead(s, p, 2, ';');
        DigitsAhead(s, p, 1, Find(s[p..], 2, ';'), '#', 10, 1, 0);
      }
    }
  }

  /** A string held in a buffer, decoded there when it is first asked for. */
  class StrPair {
    const buf: array<char>
    const end: nat
    var needsFlush: bool
    var newlines: bool
    var entities: bool

    constructor (text: string, newlines: bool, entities: bool)
      requires forall k :: 0 <= k < |text| ==> text[k] != NUL
      ensures Valid() && needsFlush && Raw() == text && this.newlines == newlines && this.entities == entities
      ensures fresh(buf)
    {
      var b := new char[|text| + 1](i requires 0 <= i <= |text| => if i < |text| then text[i] else NUL);
      buf, end := b, |text|;
      needsFlush, this.newlines, this.entities := true, newlines, entities;
      new;
      assert buf[..end] == text;
    }

    ghost predicate Valid()
      reads this, buf
    {
      end < buf.Length && (needsFlush ==> forall k :: 0 <= k < end ==> buf[k] != NUL)
    }

    ghost function Raw(): string
      requires Valid()
      reads this, buf
    {
      buf[..end]
    }

    method Store(q: nat, s: string)
      requires q + |s| <= buf.Length
      modifies buf
      ensures forall k :: 0 <= k < buf.Length ==> buf[k] == if q <= k < q + |s| then s[k - q] else old(buf[k])
    {
      for i := 0 to |s|
        invariant forall k :: 0 <= k < buf.Length ==> buf[k] == if q <= k < q + i then s[k - q] else old(buf[k])
      {
        buf[q + i] := s[i];
      }
    }

    /**
     * GetStr: the write pointer q follows the read pointer p through the same buffer, and what is
     * left at and behind p is still the original text.
     */
    method GetStr() returns (length: nat)
      requires Valid()
      modifies this, buf
      ensures Valid() && !needsFlush && length <= end
      ensures old(needsFlush) ==>
          buf[..length] == (if old(newlines || entities) then Decoded(old(Raw()), old(newlines), old(entities)) else old(Raw()))
      ensures old(needsFlush) ==> buf[length] == NUL
      ensures !old(needsFlush) ==> buf[..] == old(buf[..])
    {
      length := end;
      if !needsFlush {
        return;
      }
      buf[end] := NUL;
      needsFlush := false;
      if newlines || entities {
        length := DecodeInPlace();
        buf[length] := NUL;
        newlines, entities := false, false;
      }
    }

    /** Stores s behind the q characters written so far. */
    method Append(q: nat, s: string) returns (q': nat)
      requires q + |s| <= buf.Length
      modifies buf
      ensures q' == q + |s| && buf[..q'] == old(buf[..q]) + s
      ensures forall k :: q' <= k < buf.Length ==> buf[k] == old(buf[k])
    {
      Store(q, s);
      q' := q + |s|;
    }

    method DecodeInPlace() returns (q: nat)
      requires end < buf.Length && buf[end] == NUL
      modifies buf
      ensures q <= end && buf[..q] == Decoded(old(buf[..end]), newlines, entities)
    {
      ghost var text := buf[..end];
      var p := 0;
      q := 0;
      while p < end
        invariant q <= p <= end
        invariant forall k :: q <= k < end ==> buf[k] == text[k]
        invariant Decode(text, p, buf[..q], newlines, entities) == Decoded(text, newlines, entities)
      {
        var step := OneStepAhead(p, q, text);
        StepShrinks(text, p, text[q], newlines, entities);
        DecodeUnfolds(text, p, buf[..q], step, newlines, entities);
        q := Append(q, step.add);
        p := step.next;
      }
    }

    /** One round of the loop reads only from p on, and the byte at q. */
    method OneStepAhead(p: nat, q: nat, ghost text: string) returns (step: Step)
      requires end < buf.Length && q <= p < end && |text| == end
      requires forall k :: q <= k < end ==> buf[k] == text[k]
      ensures step == OneStep(text, p, text[q], newlines, entities)
    {
      var ahead := buf[p..end];
      StepAhead(text, p, text[q], newlines, entities);
      assert ahead == text[p..];
      step := OneStep(ahead, 0, buf[q], newlines, entities);
      step := Step(step.add, p + step.next);
    }
  }

  // ---- Round trip ----

  lemma AppendFront(a: string, b: string)
    requires b != ""
    ensures (a + b)[..|a + b| - 1] == a + b[..|b| - 1] && (a + b)[|a + b| - 1] == b[|b| - 1]
  {
  }

  lemma {:induction false} EscapedAppend(a: string, b: string, restricted: bool)
    ensures Escaped(a + b, restricted) == Escaped(a, restricted) + Escaped(b, restricted)
    decreases |b|
  {
    if b == "" {
      assert a + b == a;
    } else {
      var front, c := b[..|b| - 1], b[|b| - 1];
      EscapedAppend(a, front, restricted);
      AppendFront(a, b);
      Regroup(Escaped(a, restricted), Escaped(front, restricted), Escape(c, restricted));
    }
  }

  /** The escaped text starts like the text, or with the ampersand of a reference. */
  lemma {:induction false} EscapedStarts(s: string, restricted: bool)
    ensures |Escaped(s, restricted)| >= |s|
    ensures s != "" ==> Escaped(s, restricted)[0] == s[0] || Escaped(s, restricted)[0] == '&'
    decreases |s|
  {
    if |s| > 1 {
      EscapedStarts(s[..|s| - 1], restricted);
    }
  }

  /** strncmp, one character after the other. */
  lemma SliceAt(s: string, p: nat, r: string, j: nat)
    requires p + |r| <= |s| && s[p..p + |r|] == r && j < |r|
    ensures s[p + j] == r[j]
  {
    assert s[p..p + |r|][j] == s[p + j];
  }

  lemma SliceIs(s: string, p: nat, r: string)
    requires p + |r| <= |s| && forall j {:trigger r[j]} :: 0 <= j < |r| ==> s[p + j] == r[j]
    ensures s[p..p + |r|] == r
  {
  }

  /** The first two characters tell the patterns apart. */
  lemma DifferentStarts(j: nat, k: nat)
    requires j < k < NUM_ENTITIES
    ensures |ENTITIES[j].pattern| >= 2 && |ENTITIES[k].pattern| >= 2
    ensures ENTITIES[j].pattern[0] != ENTITIES[k].pattern[0] || ENTITIES[j].pattern[1] != ENTITIES[k].pattern[1]
  {
  }

  lemma PatternIsThere(s: string, p: nat, k: nat)
    requires k < NUM_ENTITIES && p + |Reference(k)| <= |s| && s[p..p + |Reference(k)|] == Reference(k)
    ensures s[p] == '&' && EntityAt(s, p, k)
  {
    var r, n := Reference(k), |ENTITIES[k].pattern|;
    forall j {:trigger ENTITIES[k].pattern[j]} | 0 <= j < n ensures s[p + 1 + j] == ENTITIES[k].pattern[j] {
      SliceAt(s, p, r, j + 1);
      assert r[j + 1] == ENTITIES[k].pattern[j];
    }
    SliceIs(s, p + 1, ENTITIES[k].pattern);
    SliceAt(s, p, r, 0);
    SliceAt(s, p, r, n + 1);
  }

  lemma EntityStarts(s: string, p: nat, k: nat)
    requires k < NUM_ENTITIES && EntityAt(s, p, k) && |ENTITIES[k].pattern| >= 2
    ensures s[p + 1] == ENTITIES[k].pattern[0] && s[p + 2] == ENTITIES[k].pattern[1]
  {
    SliceAt(s, p + 1, ENTITIES[k].pattern, 0);
    SliceAt(s, p + 1, ENTITIES[k].pattern, 1);
  }

  /** The whole reference of an entity is found at its ampersand. */
  lemma ReferenceIsFound(s: string, p: nat, k: nat)
    requires k < NUM_ENTITIES && p + |Reference(k)| <= |s| && s[p..p + |Reference(k)|] == Reference(k)
    ensures s[p] == '&' && At(s, p + 1) != '#' && EntityIndex(s, p, 0) == k
  {
    PatternIsThere(s, p, k);
    NoHash(k);
    EntityStarts(s, p, k);
    forall j | 0 <= j < k ensures !EntityAt(s, p, j) {
      DifferentStarts(j, k);
      if EntityAt(s, p, j) {
        EntityStarts(s, p, j);
      }
    }
    FirstEntity(s, p, 0, k);
  }

  lemma NoHash(k: nat)
    requires k < NUM_ENTITIES
    ensures |ENTITIES[k].pattern| >= 2 && ENTITIES[k].pattern[0] != '#'
  {
  }

  lemma {:induction false} FirstEntity(s: string, p: nat, i: nat, k: nat)
    requires i <= k < NUM_ENTITIES && EntityAt(s, p, k) && forall j :: i <= j < k ==> !EntityAt(s, p, j)
    ensures EntityIndex(s, p, i) == k
    decreases k - i
  {
    if i < k {
      FirstEntity(s, p, i + 1, k);
    }
  }

  /** One round reads back one escaped character. */
  lemma ReadsBack(s: string, p: nat, stale: char, c: char, restricted: bool)
    requires c != NUL && c != CR
    requires p + |Escape(c, restricted)| <= |s| && s[p..p + |Escape(c, restricted)|] == Escape(c, restricted)
    requires At(s, p + |Escape(c, restricted)|) != CR
    ensures p < |s| && OneStep(s, p, stale, true, true) == Step([c], p + |Escape(c, restricted)|)
  {
    FlaggedHasEntity(c, restricted);
    if Flagged(c, restricted) {
      ReferenceIsFound(s, p, IndexOfValue(c, 0));
    } else {
      assert s[p] == s[p..p + 1][0];
      assert c != '&';
    }
  }

  predicate Plain(s: string) {
    forall k :: 0 <= k < |s| ==> s[k] != NUL && s[k] != CR
  }

  /** The first character of what is left is read back. */
  lemma {:induction false} ReadFirst(before: string, c: char, more: string, stale: char, restricted: bool)
    requires c != NUL && c != CR && Plain(more)
    ensures var e, p := Escaped(before, restricted) + Escaped([c] + more, restricted), |Escaped(before, restricted)|;
        && p < |e| && OneStep(e, p, stale, true, true) == Step([c], |Escaped(before + [c], restricted)|)
        && e == Escaped(before + [c], restricted) + Escaped(more, restricted)
  {
    EscapedAppend([c], more, restricted);
    EscapedAppend(before, [c], restricted);
    EscapedOne(c, restricted);
    EscapedStarts(more, restricted);
    var b, x, m := Escaped(before, restricted), Escape(c, restricted), Escaped(more, restricted);
    Regroup(b, x, m);
    assert (b + (x + m))[|b|..|b| + |x|] == x;
    assert At(b + x + m, |b| + |x|) == At(m, 0);
    ReadsBack(b + (x + m), |b|, stale, c, restricted);
  }

  lemma EscapedOne(c: char, restricted: bool)
    ensures Escaped([c], restricted) == Escape(c, restricted)
  {
    assert [c][..0] == "";
  }

  lemma {:induction false} DecodeFrom(before: string, rest: string, restricted: bool)
    requires Plain(rest)
    ensures |before| <= |Escaped(before, restricted)|
    ensures Decode(Escaped(before, restricted) + Escaped(rest, restricted), |Escaped(before, restricted)|, before, true, true)
        == before + rest
    decreases |rest|
  {
    EscapedStarts(before, restricted);
    EscapedStarts(rest, restricted);
    if rest == "" {
      assert Escaped(before, restricted) + "" == Escaped(before, restricted);
    } else {
      var c, more := rest[0], rest[1..];
      assert rest == [c] + more;
      var e := Escaped(before, restricted) + Escaped(rest, restricted);
      ReadFirst(before, c, more, e[|before|], restricted);
      DecodeFrom(before + [c], more, restricted);
      Regroup(before, [c], more);
    }
  }

  /** Decoding undoes escaping, in text and in attributes. */
  lemma {:induction false} EntityRoundTrip(s: string, restricted: bool)
    requires Plain(s)
    ensures Decoded(Escaped(s, restricted), true, true) == s
  {
    DecodeFrom("", s, restricted);
    assert "" + Escaped(s, restricted) == Escaped(s, restricted);
  }

  /** Escaping adds no NUL. */
  lemma {:induction false} EscapedHasNoNul(s: string, restricted: bool)
    requires forall k :: 0 <= k < |s| ==> s[k] != NUL
    ensures forall k :: 0 <= k < |Escaped(s, restricted)| ==> Escaped(s, restricted)[k] != NUL
    decreases |s|
  {
    if s != "" {
      EscapedHasNoNul(s[..|s| - 1], restricted);
      EscapeHasNoNul(s[|s| - 1], restricted);
    }
  }

  lemma EscapeHasNoNul(c: char, restricted: bool)
    requires c != NUL
    ensures forall k :: 0 <= k < |Escape(c, restricted)| ==> Escape(c, restricted)[k] != NUL
  {
    FlaggedHasEntity(c, restricted);
    assert forall i :: 0 <= i < NUM_ENTITIES ==> NUL !in ENTITIES[i].pattern;
  }

  /** What the printer writes for a string is decoded in place to that string. */
  method PrintAndGet(s: string, restricted: bool) returns (pair: StrPair, length: nat)
    requires Plain(s)
    ensures pair.Valid() && length <= pair.end && pair.buf[..length] == s && pair.buf[length] == NUL
  {
    var printer := new XmlPrinter(true);
    printer.PrintString(s, restricted);
    EscapedHasNoNul(s, restricted);
    assert printer.buffer == Escaped(s, restricted);
    pair := new StrPair(printer.buffer, true, true);
    length := pair.GetStr();
    EntityRoundTrip(s, restricted);
  }

  // ---- Numeric references ----

  /** The value of digits in a radix. */
  function Value(digits: string, radix: nat): nat {
    if digits == "" then 0 else Value(digits[..|digits| - 1], radix) * radix + Digit(digits[|digits| - 1])
  }

  function Power(radix: nat, n: nat): nat {
    if n == 0 then 1 else radix * Power(radix, n - 1)
  }

  predicate DigitsOf(digits: string, radix: nat) {
    forall i :: 0 <= i < |digits| ==> Digit(digits[i]) < radix
  }

  lemma Larger(a: nat, b: nat, c: nat)
    requires a <= b
    ensures c * a <= c * b
  {
  }

  lemma Spread(a: nat, b: nat, c: nat)
    ensures a * (b + c) == a * b + a * c
  {
  }

  lemma Product(a: nat, b: nat) returns (c: nat)
    ensures c == a * b
  {
    Larger(0, b, a);
    c := a * b;
  }

  lemma Reorder(a: nat, b: nat, c: nat)
    ensures a * (b * c) == a * b * c
  {
  }

  lemma {:induction false} ValueBound(digits: string, radix: nat)
    requires DigitsOf(digits, radix) && radix > 0
    ensures Value(digits, radix) < Power(radix, |digits|)
    decreases |digits|
  {
    if digits != "" {
      ValueBound(digits[..|digits| - 1], radix);
      var v, w := Value(digits[..|digits| - 1], radix), Power(radix, |digits| - 1);
      Larger(v + 1, w, radix);
      Spread(radix, v, 1);
    }
  }

  lemma Scale(mult: nat, radix: nat, v: nat, d: nat)
    ensures mult * (v * radix + d) == mult * radix * v + mult * d
  {
    Spread(mult, radix * v, d);
    Reorder(mult, radix, v);
  }

  /** A product of nonzero factors below 2^32 has not wrapped. */
  lemma ExactProduct(p: nat, d: nat)
    requires p * d < TWO32
    ensures p % TWO32 * d % TWO32 == p * d
  {
    if d > 0 {
      Larger(1, d, p);
      assert p % TWO32 == p;
    } else {
      assert p % TWO32 * d == 0;
    }
  }

  lemma ModTimes(p: nat, radix: nat)
    ensures p % TWO32 * radix % TWO32 == p * radix % TWO32
  {
    var k, m := p / TWO32, p % TWO32;
    Spread(radix, TWO32 * k, m);
    Reorder(radix, TWO32, k);
    Multiples(radix * k, m * radix);
    assert p * radix == TWO32 * (radix * k) + m * radix;
  }

  lemma Multiples(k: nat, m: nat)
    ensures (TWO32 * k + m) % TWO32 == m % TWO32
  {
  }

  lemma DropLast(s: string, a: nat, b: nat)
    requires a < b <= |s|
    ensures s[a..b][|s[a..b]| - 1] == s[b - 1] && s[a..b][..|s[a..b]| - 1] == s[a..b - 1]
  {
  }

  lemma MoreDigits(s: string, lo: nat, q: nat, mark: char, radix: nat, mult: nat, ucs: nat, mult': nat, ucs': nat)
    requires lo + 1 < q <= |s| && s[lo] == mark && Digit(s[q - 1]) < radix <= Digit(mark)
    requires mult * radix % TWO32 == mult' && (ucs + mult * Digit(s[q - 1]) % TWO32) % TWO64 == ucs'
    ensures DigitsBack(s, lo, q, mark, radix, mult, ucs) == DigitsBack(s, lo, q - 1, mark, radix, mult', ucs')
  {
  }

  /** One digit, where p is the place value that mult holds modulo 2^32. */
  lemma DigitTaken(s: string, lo: nat, q: nat, mark: char, radix: nat, p: nat, p': nat, ucs: nat, ucs': nat)
    requires lo + 1 < q <= |s| && s[lo] == mark && Digit(s[q - 1]) < radix <= Digit(mark)
    requires p' == p * radix && ucs' == ucs + p * Digit(s[q - 1]) < TWO32
    ensures DigitsBack(s, lo, q, mark, radix, p % TWO32, ucs) == DigitsBack(s, lo, q - 1, mark, radix, p' % TWO32, ucs')
  {
    ExactProduct(p, Digit(s[q - 1]));
    ModTimes(p, radix);
    MoreDigits(s, lo, q, mark, radix, p % TWO32, ucs, p' % TWO32, ucs');
  }

  /** The value and the place value behind one more digit. */
  lemma PlaceValues(p: nat, radix: nat, v: nat, d: nat, w: nat, total: nat, end: nat) returns (p': nat, add: nat)
    requires total == p * (v * radix + d) && end == p * (radix * w)
    ensures p' == p * radix && add == p * d && total == p' * v + add && end == p' * w
  {
    p' := Product(p, radix);
    add := Product(p, d);
    Scale(p, radix, v, d);
    Reorder(p, radix, w);
  }

  /**
   * Reading digits backwards down to index stop adds their value, if that fits 32 bits: where the
   * multiplier has wrapped, the digits that it meets are zeros.
   */
  lemma {:induction false} DigitsAddUp(s: string, lo: nat, stop: nat, q: nat, mark: char, radix: nat, p: nat, ucs: nat,
                                       total: nat, end: nat)
    requires lo < stop <= q <= |s| && s[lo] == mark && Digit(mark) >= radix && DigitsOf(s[stop..q], radix)
    requires total == p * Value(s[stop..q], radix) && end == p * Power(radix, q - stop) && ucs + total < TWO32
    ensures DigitsBack(s, lo, q, mark, radix, p % TWO32, ucs)
        == DigitsBack(s, lo, stop, mark, radix, end % TWO32, ucs + total)
    decreases q
  {
    if stop < q {
      var d, v := Digit(s[q - 1]), Value(s[stop..q - 1], radix);
      DropLast(s, stop, q);
      var p', add := PlaceValues(p, radix, v, d, Power(radix, q - 1 - stop), total, end);
      Larger(0, v, p');
      DigitTaken(s, lo, q, mark, radix, p, p', ucs, ucs + add);
      DigitsAddUp(s, lo, stop, q - 1, mark, radix, p', ucs + add, total - add, end);
    } else {
      NoDigits(s, q, radix, p, total, end);
    }
  }

  lemma NoDigits(s: string, q: nat, radix: nat, p: nat, total: nat, end: nat)
    requires q <= |s| && total == p * Value(s[q..q], radix) && end == p * Power(radix, 0)
    ensures total == 0 && end == p
  {
    assert s[q..q] == "";
  }

  /** Once the multiplier is zero, further digits are read and count nothing. */
  lemma {:induction false} ZeroMultiplier(s: string, lo: nat, q: nat, mark: char, radix: nat, ucs: nat)
    requires lo < q <= |s| && s[lo] == mark && Digit(mark) >= radix && DigitsOf(s[lo + 1..q], radix) && ucs < TWO32
    ensures DigitsBack(s, lo, q, mark, radix, 0, ucs) == Number(ucs)
    decreases q
  {
    if lo + 1 < q {
      DropLast(s, lo + 1, q);
      DigitTaken(s, lo, q, mark, radix, 0, 0, ucs, ucs);
      ZeroMultiplier(s, lo, q - 1, mark, radix, ucs);
    }
  }

  lemma {:induction false} ValueSplit(a: string, b: string, radix: nat)
    ensures Value(a + b, radix) == Value(a, radix) * Power(radix, |b|) + Value(b, radix)
    decreases |b|
  {
    if b == "" {
      assert a + b == a;
    } else {
      var front, d, v, w := b[..|b| - 1], Digit(b[|b| - 1]), Value(a, radix), Power(radix, |b| - 1);
      AppendFront(a, b);
      ValueSplit(a, front, radix);
      OneMoreDigit(v, w, radix, Value(front, radix), d);
    }
  }

  lemma OneMoreDigit(v: nat, w: nat, radix: nat, f: nat, d: nat)
    ensures (v * w + f) * radix + d == v * (radix * w) + (f * radix + d)
  {
    Spread(radix, v * w, f);
    Reorder(v, w, radix);
  }

  lemma {:induction false} FindEnd(s: string, i: nat, radix: nat)
    requires i < |s| && s[|s| - 1] == ';' && DigitsOf(s[i..|s| - 1], radix) && radix <= 16
    ensures Find(s, i, ';') == |s| - 1
    decreases |s| - i
  {
    if i < |s| - 1 {
      assert s[i..|s| - 1][0] == s[i];
      assert s[i + 1..|s| - 1] == s[i..|s| - 1][1..];
      FindEnd(s, i + 1, radix);
    }
  }

  function NumericReference(digits: string, hex: bool): string {
    (if hex then "&#x" else "&#") + digits + ";"
  }

  /**
   * A numeric reference stands for the UTF-8 bytes of its number, modulo 2^32 in hexadecimal.
   * However many digits it has, decimal ones count when their value is below 2^32.
   */
  lemma {:induction false} NumericReferenceDecodes(digits: string, hex: bool, newlines: bool)
    requires DigitsOf(digits, if hex then 16 else 10) && (hex || Value(digits, 10) < TWO32)
    ensures Decoded(NumericReference(digits, hex), newlines, true)
        == Utf8(Value(digits, if hex then 16 else 10) % TWO32)
  {
    var s, radix := NumericReference(digits, hex), if hex then 16 else 10;
    var n := Value(digits, radix) % TWO32;
    ReferenceIs(digits, hex, s, radix, n);
    RefShrinks(s, 0);
    assert OneStep(s, 0, s[0], newlines, true) == Step(Utf8(n), |s|);
    DecodeOnce(s, Utf8(n), newlines);
  }

  lemma DecodeOnce(s: string, add: string, newlines: bool)
    requires s != "" && |add| <= |s| && OneStep(s, 0, s[0], newlines, true) == Step(add, |s|)
    ensures Decoded(s, newlines, true) == add
  {
    assert "" + add == add;
    assert Decode(s, |s|, add, newlines, true) == add;
  }

  lemma {:induction false} ReferenceIs(digits: string, hex: bool, s: string, radix: nat, n: nat)
    requires radix == (if hex then 16 else 10) && DigitsOf(digits, radix) && (hex || Value(digits, radix) < TWO32)
    requires s == NumericReference(digits, hex) && n == Value(digits, radix) % TWO32
    ensures RefOf(s, 0) == Ref(Utf8(n), |s|)
  {
    var q := |s| - 1;
    if hex {
      RefIsTo(digits, hex, s, 2, q, 'x', radix);
      HexDigits(s, 2, q, radix, digits, n);
      RefFromNumber(s, 2, q, 'x', radix, n);
    } else {
      RefIsTo(digits, hex, s, 1, q, '#', radix);
      DigitsAre(s, 1, q, '#', radix, digits, n);
      RefFromNumber(s, 1, q, '#', radix, n);
    }
  }

  lemma RefFromNumber(s: string, lo: nat, q: nat, mark: char, radix: nat, n: nat)
    requires lo < q && q + 1 == |s| && s[lo] == mark && RefOf(s, 0) == RefTo(s, 0, lo, q, mark, radix)
    requires DigitsBack(s, lo, q, mark, radix, 1, 0) == Number(n)
    ensures RefOf(s, 0) == Ref(Utf8(n), |s|)
  {
  }

  lemma {:induction false} RefIsTo(digits: string, hex: bool, s: string, lo: nat, q: nat, mark: char, radix: nat)
    requires DigitsOf(digits, radix) && s == NumericReference(digits, hex) && q + 1 == |s|
    requires if hex then lo == 2 && mark == 'x' && radix == 16 else lo == 1 && mark == '#' && radix == 10
    ensures lo < q && s[lo] == mark && s[lo + 1..q] == digits
    ensures RefOf(s, 0) == RefTo(s, 0, lo, q, mark, radix)
  {
    assert s[lo + 1..q] == digits && s[q] == ';';
    assert digits != "" ==> s[lo + 1] == digits[0];
    assert Digit('x') == 16;
    FindEnd(s, lo + 1, radix);
  }

  /** Digits whose value fits 32 bits. */
  lemma {:induction false} DigitsAre(s: string, lo: nat, q: nat, mark: char, radix: nat, digits: string, n: nat)
    requires lo < q <= |s| && s[lo] == mark && Digit(mark) >= radix && digits == s[lo + 1..q] && DigitsOf(digits, radix)
    requires n == Value(digits, radix) < TWO32
    ensures DigitsBack(s, lo, q, mark, radix, 1, 0) == Number(n)
  {
    var end := 1 * Power(radix, q - (lo + 1));
    DigitsAddUp(s, lo, lo + 1, q, mark, radix, 1, 0, n, end);
    AtMark(s, lo, mark, radix, end % TWO32, n);
  }

  lemma AtMark(s: string, lo: nat, mark: char, radix: nat, mult: nat, ucs: nat)
    requires lo < |s| && s[lo] == mark
    ensures DigitsBack(s, lo, lo + 1, mark, radix, mult, ucs) == Number(ucs)
  {
  }

  lemma {:induction false} HexDigits(s: string, lo: nat, q: nat, radix: nat, digits: string, n: nat)
    requires lo < q <= |s| && s[lo] == 'x' && digits == s[lo + 1..q] && radix == 16 && DigitsOf(digits, radix)
    requires n == Value(digits, radix) % TWO32
    ensures DigitsBack(s, lo, q, 'x', radix, 1, 0) == Number(n)
  {
    if |digits| <= 8 {
      assert "" + digits == digits;
      LastDigitsCount(digits, "", digits, radix);
      DigitsAre(s, lo, q, 'x', radix, digits, n);
    } else {
      ManyHexDigits(s, lo, q - 8, q, radix, s[lo + 1..q - 8], s[q - 8..q], digits, n);
    }
  }

  lemma {:induction false} ManyHexDigits(s: string, lo: nat, stop: nat, q: nat, radix: nat, front: string, back: string,
                                         digits: string, n: nat)
    requires lo + 1 < stop && q == stop + 8 <= |s| && s[lo] == 'x' && radix == 16 && digits == s[lo + 1..q]
    requires front == s[lo + 1..stop] && back == s[stop..q] && DigitsOf(digits, radix)
    requires n == Value(digits, radix) % TWO32
    ensures DigitsBack(s, lo, q, 'x', radix, 1, 0) == Number(n)
  {
    Halves(s, lo, stop, q, radix);
    LastDigitsCount(digits, front, back, radix);
    PowersOf16(8);
    DigitsAddUp(s, lo, stop, q, 'x', radix, 1, 0, n, TWO32);
    ZeroMultiplier(s, lo, stop, 'x', radix, n);
  }

  lemma Halves(s: string, lo: nat, stop: nat, q: nat, radix: nat)
    requires lo < stop <= q <= |s| && DigitsOf(s[lo + 1..q], radix)
    ensures s[lo + 1..q] == s[lo + 1..stop] + s[stop..q]
    ensures DigitsOf(s[lo + 1..stop], radix) && DigitsOf(s[stop..q], radix)
  {
    var digits, front, back := s[lo + 1..q], s[lo + 1..stop], s[stop..q];
    forall i | 0 <= i < |front| ensures Digit(front[i]) < radix {
      assert front[i] == digits[i];
    }
    forall i | 0 <= i < |back| ensures Digit(back[i]) < radix {
      assert back[i] == digits[|front| + i];
    }
  }

  /** Modulo 2^32 the last eight digits are all that counts. */
  lemma {:induction false} LastDigitsCount(digits: string, front: string, back: string, radix: nat)
    requires digits == front + back && radix == 16 && DigitsOf(back, radix)
    requires if front == "" then |back| <= 8 else |back| == 8
    ensures Value(back, radix) == Value(digits, radix) % TWO32
  {
    ValueSplit(front, back, radix);
    ValueBound(back, radix);
    PowersOf16(|back|);
    Modulo(Value(front, radix), Power(radix, |back|), Value(back, radix));
  }

  lemma Modulo(k: nat, w: nat, m: nat)
    requires m < w <= TWO32 && (k == 0 || w == TWO32)
    ensures (k * w + m) % TWO32 == m
  {
    if k > 0 {
      Multiples(k, m);
    }
  }

  lemma PowersOf16(n: nat)
    ensures n <= 8 ==> Power(16, n) <= TWO32
    ensures n == 8 ==> Power(16, n) == TWO32
  {
    assert Power(16, 1) == 16 && Power(16, 2) == 256 && Power(16, 3) == 4096 && Power(16, 4) == 65536;
    assert Power(16, 5) == 0x10_0000 && Power(16, 6) == 0x100_0000 && Power(16, 7) == 0x1000_0000;
    assert Power(16, 8) == TWO32;
  }
}
