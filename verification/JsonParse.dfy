/**
 * The recursive-descent parser over a NUL-terminated buffer: it reads what the grammar says.
 */
module JsonParse {
  import opened JsonString
  import opened JsonValue
  import opened JsonGrammar

  /** Items already parsed, and what the others are read as. */
  ghost function Behind<T>(xs: seq<T>, more: Parsed<seq<T>>): Parsed<seq<T>> {
    match more
    case Fail => Fail
    case Got(ys, next) => Got(xs + ys, next)
  }

  lemma BehindNone<T>(more: Parsed<seq<T>>)
    ensures Behind([], more) == more
  {
    assert more.Got? ==> [] + more.value == more.value;
  }

  lemma BehindOne<T>(xs: seq<T>, x: T, more: Parsed<seq<T>>)
    ensures Behind(xs + [x], more) == Behind(xs, After(x, more))
  {
    assert more.Got? ==> (xs + [x]) + more.value == xs + ([x] + more.value);
  }

  /** The elements that are left, from p on, after those already parsed, make all of them. */
  ghost predicate ListLeft<T>(content: string, one: nat -> Parsed<T>, close: char, p: nat, before: seq<T>, all: Parsed<seq<T>>) {
    && Ended(content) && p < |content| && Advances(content, one, p) && close != NUL
    && Behind(before, ReadList(content, one, close, p)) == all
  }

  /** All elements are parsed when the closing character is at e. */
  ghost predicate ListDone<T>(content: string, close: char, e: nat, xs: seq<T>, all: Parsed<seq<T>>) {
    && e < |content|
    && if content[e] == close then all == Got(xs, e + 1) else all == Fail
  }

  lemma ElementFails<T>(content: string, one: nat -> Parsed<T>, close: char, p: nat, before: seq<T>, all: Parsed<seq<T>>)
    requires ListLeft(content, one, close, p, before, all) && one(p).Fail?
    ensures all == Fail
  {
  }

  /** Element x was parsed, and the next character that is no blank is at e. */
  lemma ElementParsed<T>(content: string, one: nat -> Parsed<T>, close: char, p: nat, before: seq<T>, all: Parsed<seq<T>>,
                         x: T, e: nat, next: nat)
    requires next == e + 1 && ListLeft(content, one, close, p, before, all) && one(p).Got?
    requires one(p).value == x && e == Skip(content, one(p).next)
    ensures if content[e] == ',' then ListLeft(content, one, close, next, before + [x], all)
            else ListDone(content, close, e, before + [x], all)
  {
    if content[e] == ',' {
      BehindOne(before, x, ReadList(content, one, close, next));
    }
  }

  /** A key is a name, and a colon behind it. */
  lemma KeyIs(content: string, p: nat, key: Parsed<string>) returns (q: nat, r: Parsed<string>)
    requires Ended(content) && p < |content| && key == ReadKey(content, p)
    ensures q == Skip(content, p) && r == ReadString(content, q)
    ensures r.Got? ==> r.next < |content|
    ensures key == if r.Got? && content[Skip(content, r.next)] == ':' then Got(r.value, Skip(content, r.next) + 1) else Fail
  {
    q := Skip(content, p);
    r := ReadString(content, q);
  }

  lemma ArrayIs(content: string, read: nat -> Parsed<Value>, p: nat, first: nat, r: Parsed<Value>)
    requires Ended(content) && p < |content| && Advances(content, read, p)
    requires first == Skip(content, p) && r == ReadArray(content, read, p)
    ensures r == if content[first] == ']' then Got(Array([]), first + 1)
                 else AsArray(ReadList(content, ItemReader(content, read, p), ']', first))
  {
  }

  lemma ObjectIs(content: string, read: nat -> Parsed<Value>, p: nat, first: nat, r: Parsed<Value>)
    requires Ended(content) && p < |content| && Advances(content, read, p)
    requires first == Skip(content, p) && r == ReadObject(content, read, p)
    ensures r == if content[first] == '}' then Got(Object([]), first + 1)
                 else AsObject(ReadList(content, MemberReader(content, read, p), '}', first))
  {
  }

  class ParseBuffer {
    /** The text, with its NUL. */
    const content: string
    /** strtod: how many characters of a text make a number. */
    const scan: string -> nat
    const nestingLimit: nat
    var offset: nat
    var depth: nat

    constructor (text: string, scan: string -> nat, nestingLimit: nat)
      requires forall t :: scan(t) <= |t|
      ensures Valid() && offset == 0 && depth == 0
      ensures content == text + [NUL] && this.scan == scan && this.nestingLimit == nestingLimit
    {
      content := text + [NUL];
      this.scan, this.nestingLimit := scan, nestingLimit;
      offset, depth := 0, 0;
    }

    ghost function Text(): Input {
      Input(content, scan, nestingLimit)
    }

    ghost predicate Valid()
      reads this
    {
      Text().Ok() && offset < |content|
    }

    /** buffer_skip_whitespace: also skips the NUL, and steps back onto it. */
    method SkipWhitespace()
      requires Valid()
      modifies this`offset
      ensures Valid() && offset == Skip(content, old(offset))
    {
      while offset < |content| && content[offset] <= ' '
        invariant old(offset) <= offset <= |content|
        invariant Skip(content, old(offset)) == if offset < |content| then Skip(content, offset) else |content| - 1
        decreases |content| - offset
      {
        offset := offset + 1;
      }
      if offset == |content| {
        offset := offset - 1;
      }
    }

    /** The first pass of parse_string: where the string ends, and how many backslashes it skips. */
    method FindEnd(start: nat) returns (end: nat, skipped: nat)
      requires start <= |content|
      ensures end == StringEnd(content, start) && skipped == Skips(content, start, end)
    {
      end, skipped := start, 0;
      ghost var stop := StringEnd(content, start);
      while end < |content| && content[end] != QUOTE
        invariant start <= end <= stop && StringEnd(content, end) == stop
        invariant skipped + Skips(content, end, stop) == Skips(content, start, stop)
        decreases |content| - end
      {
        if content[end] == BACKSLASH {
          if end + 1 >= |content| {
            SkipsGrow(content, end, end);
            return |content|, skipped + 1;
          }
          skipped := skipped + 1;
          end := end + 1;
        }
        end := end + 1;
      }
    }

    /** The second pass: every write stays inside the output that the first pass sized. */
    method DecodeInto(start: nat, end: nat, output: array<char>) returns (ok: bool, p: nat, n: nat)
      requires start <= end < |content| && content[end] == QUOTE
      requires output.Length == end + 1 - start - Skips(content, start, end) + 1
      modifies output
      ensures p <= end + 1 && n < output.Length
      ensures DecodeBody(content, start, end, "") == if ok then Decoded(output[..n]) else Malformed
    {
      p, n := start, 0;
      FitsAllocation(content, start, start, end, 0);
      while p < end
        invariant start <= p <= end + 1 && Fits(content, start, p, n) && n < output.Length
        invariant DecodeBody(content, p, end, output[..n]) == DecodeBody(content, start, end, "")
        decreases end + 1 - p
      {
        var unit := UnitAt(content, p, end);
        if unit.BadUnit? {
          return false, p, n;
        }
        UnitFits(content, start, p, end, n);
        FitsAllocation(content, start, p + unit.length, end, n + |unit.text|);
        n := Emit(output, n, unit.text);
        p := p + unit.length;
      }
      ok := true;
    }

    /** Allocates the output and runs the second pass. */
    method DecodeString(start: nat, end: nat, skipped: nat) returns (ok: bool, text: string, p: nat)
      requires start <= end < |content| && content[end] == QUOTE && skipped == Skips(content, start, end)
      ensures p <= end + 1
      ensures DecodeBody(content, start, end, "") == if ok then Decoded(text) else Malformed
    {
      FitsAllocation(content, start, start, end, 0);
      var allocationLength := end + 1 - start - skipped;
      var output := new char[allocationLength + 1];
      var n;
      ok, p, n := DecodeInto(start, end, output);
      text := output[..n];
    }

    /** parse_string, for what the grammar reads here. */
    method ParseString(ghost r: Parsed<string>) returns (ok: bool, text: string)
      requires Valid() && r == ReadString(content, offset)
      modifies this`offset
      ensures offset <= |content| && (ok <==> r.Got?) && (ok ==> text == r.value && offset == r.next)
    {
      var start := offset + 1;
      text := "";
      if content[offset] != QUOTE {
        offset := start;
        return false, text;
      }
      var end, skipped := FindEnd(start);
      if end >= |content| {
        offset := start;
        return false, text;
      }
      var p;
      ok, text, p := DecodeString(start, end, skipped);
      offset := if ok then end + 1 else p;
    }

    /** The loop that copies the characters of a number. */
    method CountNumber() returns (i: nat)
      requires Valid()
      ensures i == NumberRun(content, offset, NUMBER_SPACE)
    {
      i := 0;
      while i < NUMBER_SPACE && offset + i < |content| && NumberChar(content[offset + i])
        invariant i <= NUMBER_SPACE && offset + i < |content|
        invariant i + NumberRun(content, offset + i, NUMBER_SPACE - i) == NumberRun(content, offset, NUMBER_SPACE)
        decreases NUMBER_SPACE - i
      {
        i := i + 1;
      }
    }

    /** parse_number, which gives strtod at most 63 characters. */
    method ParseNumber() returns (ok: bool, value: Value)
      requires Valid()
      modifies this`offset
      ensures var r := ReadNumber(Text(), old(offset));
          offset <= |content| && (ok <==> r.Got?) && (ok ==> value == r.value && offset == r.next)
    {
      var i := CountNumber();
      ok, value := Strtod(i);
    }

    /** What strtod makes of the characters collected. */
    method Strtod(i: nat) returns (ok: bool, value: Value)
      requires Valid() && offset + i < |content|
      modifies this`offset
      ensures var r := NumberIn(Text(), old(offset), i);
          offset <= |content| && (ok <==> r.Got?) && (ok ==> value == r.value && offset == r.next)
    {
      var text := content[offset..offset + i];
      var length := scan(text);
      if length == 0 {
        return false, Null;
      }
      value := Number(text[..length]);
      offset := offset + length;
      ok := true;
    }

    /** The three comparisons at the start of parse_value. */
    method ParseWord() returns (word: Word)
      requires Valid()
      modifies this`offset
      ensures Valid() && word == WordAt(content, old(offset))
      ensures offset == old(offset) + if word.Word? then word.length else 0
    {
      word := WordAt(content, offset);
      if word.Word? {
        WordEnds(content, offset);
        offset := offset + word.length;
      }
    }

    /** parse_value. */
    method ParseValue() returns (ok: bool, value: Value)
      requires Valid()
      modifies this`offset, this`depth
      ensures var r := ReadValue(Text(), old(offset), old(depth));
          offset <= |content| && (ok <==> r.Got?) && (ok ==> value == r.value && offset == r.next && depth == old(depth))
      decreases |content| - offset, 5
    {
      var word := ParseWord();
      if word.Word? {
        return true, word.value;
      }
      if content[offset] == QUOTE {
        var text;
        ok, text := ParseString(ReadString(content, offset));
        value := Value.Text(text);
      } else if content[offset] == '-' || '0' <= content[offset] <= '9' {
        ok, value := ParseNumber();
      } else if content[offset] == '[' {
        ok, value := ParseArray();
      } else if content[offset] == '{' {
        ok, value := ParseObject();
      } else {
        ok, value := false, Null;
      }
    }

    /** parse_array. */
    method ParseArray() returns (ok: bool, value: Value)
      requires Valid() && content[offset] == '['
      modifies this`offset, this`depth
      ensures var r := if old(depth) < nestingLimit then
                         ReadArray(content, Inside(Text(), old(offset), old(depth)), old(offset) + 1)
                       else Fail;
          && offset <= |content| && (ok <==> r.Got?)
          && (ok ==> value == r.value && offset == r.next && depth == old(depth))
      decreases |content| - offset, 4
    {
      if depth >= nestingLimit {
        return false, Null;
      }
      ghost var read, p := Inside(Text(), offset, depth), offset + 1;
      depth := depth + 1;
      ok, value := ParseArrayBody(read, p, ReadArray(content, read, p));
      if ok {
        depth := depth - 1;
      }
    }

    /** From its bracket on: nothing but white space, or items. */
    method ParseArrayBody(ghost read: nat -> Parsed<Value>, ghost p: nat, ghost r: Parsed<Value>)
      returns (ok: bool, value: Value)
      requires Valid() && content[offset] == '[' && depth > 0 && read == Inside(Text(), offset, depth - 1)
      requires p == offset + 1 < |content| && r == ReadArray(content, read, p)
      modifies this`offset, this`depth
      ensures
          && offset <= |content| && (ok <==> r.Got?)
          && (ok ==> value == r.value && offset == r.next && depth == old(depth))
      decreases |content| - offset, 3
    {
      ghost var low := offset;
      offset := offset + 1;
      SkipWhitespace();
      ghost var first := offset;
      ArrayIs(content, read, p, first, r);
      if content[offset] == ']' {
        value := Array([]);
        offset := offset + 1;
        return true, value;
      }
      offset := offset - 1;
      var items;
      ok, items := ParseItems(low, p, read, ItemReader(content, read, p), first);
      value := Array(items);
      if ok {
        offset := offset + 1;
      }
    }

    /** The loop over the items, from the character before the first one to the closing bracket. */
    method ParseItems(ghost low: nat, ghost s: nat, ghost read: nat -> Parsed<Value>, ghost one: nat -> Parsed<Value>,
                      ghost first: nat)
      returns (ok: bool, items: seq<Value>)
      requires Valid() && depth > 0 && s == low + 1 <= first == offset + 1 < |content|
      requires read == Inside(Text(), low, depth - 1) && one == ItemReader(content, read, s)
      modifies this`offset, this`depth
      ensures var r := ReadList(content, one, ']', first);
          && offset <= |content| && (ok <==> r.Got?)
          && (ok ==> Valid() && depth == old(depth) && r == Got(items, offset + 1))
      decreases |content| - offset, 2
    {
      ghost var all, p: nat := ReadList(content, one, ']', first), first;
      items := [];
      var more := true;
      BehindNone(all);
      while more
        invariant Valid() && old(offset) <= offset && depth == old(depth)
        invariant more ==> p == offset + 1 && ListLeft(content, one, ']', p, items, all)
        invariant !more ==> ListDone(content, ']', offset, items, all)
        decreases |content| - offset, more
      {
        ok, items, more, p := AddItem(items, low, s, read, one, p, all);
        if !ok {
          return;
        }
      }
      ok := content[offset] == ']';
    }

    /** One round of the loop: more says that a comma follows. */
    method AddItem(before: seq<Value>, ghost low: nat, ghost s: nat, ghost read: nat -> Parsed<Value>,
                   ghost one: nat -> Parsed<Value>, ghost p: nat, ghost all: Parsed<seq<Value>>)
      returns (ok: bool, items: seq<Value>, more: bool, ghost next: nat)
      requires Valid() && depth > 0 && s == low + 1 <= p == offset + 1
      requires read == Inside(Text(), low, depth - 1) && one == ItemReader(content, read, s)
      requires ListLeft(content, one, ']', p, before, all)
      modifies this`offset, this`depth
      ensures offset <= |content| && (!ok ==> all == Fail)
      ensures ok ==> Valid() && old(offset) < offset && depth == old(depth)
      ensures ok && more ==> next == offset + 1 && ListLeft(content, one, ']', next, items, all)
      ensures ok && !more ==> ListDone(content, ']', offset, items, all)
      decreases |content| - offset, 1
    {
      var x;
      ok, x := ParseItem(low, s, read, one, p);
      items, more, next := before, false, 0;
      if !ok {
        ElementFails(content, one, ']', p, before, all);
        return;
      }
      items := before + [x];
      more := content[offset] == ',';
      next := offset + 1;
      ElementParsed(content, one, ']', p, before, all, x, offset, next);
    }

    /** White space, a value, white space. */
    method ParseItem(ghost low: nat, ghost s: nat, ghost read: nat -> Parsed<Value>, ghost one: nat -> Parsed<Value>,
                     ghost p: nat)
      returns (ok: bool, value: Value)
      requires Valid() && depth > 0 && s == low + 1 <= p == offset + 1 < |content|
      requires read == Inside(Text(), low, depth - 1) && one == ItemReader(content, read, s)
      modifies this`offset, this`depth
      ensures var r := one(p);
          && offset <= |content| && (ok <==> r.Got?)
          && (ok ==> Valid() && old(offset) < offset && depth == old(depth))
          && (ok ==> r.next < |content| && value == r.value && offset == Skip(content, r.next))
      decreases |content| - offset, 0
    {
      offset := offset + 1;
      SkipWhitespace();
      InsideIs(Text(), low, depth - 1, offset);
      ok, value := ParseValue();
      if ok {
        SkipWhitespace();
      }
    }

    /** parse_object. */
    method ParseObject() returns (ok: bool, value: Value)
      requires Valid() && content[offset] == '{'
      modifies this`offset, this`depth
      ensures var r := if old(depth) < nestingLimit then
                         ReadObject(content, Inside(Text(), old(offset), old(depth)), old(offset) + 1)
                       else Fail;
          && offset <= |content| && (ok <==> r.Got?)
          && (ok ==> value == r.value && offset == r.next && depth == old(depth))
      decreases |content| - offset, 4
    {
      if depth >= nestingLimit {
        return false, Null;
      }
      ghost var read, p := Inside(Text(), offset, depth), offset + 1;
      depth := depth + 1;
      ok, value := ParseObjectBody(read, p, ReadObject(content, read, p));
      if ok {
        depth := depth - 1;
      }
    }

    /** From its brace on: nothing but white space, or members. */
    method ParseObjectBody(ghost read: nat -> Parsed<Value>, ghost p: nat, ghost r: Parsed<Value>)
      returns (ok: bool, value: Value)
      requires Valid() && content[offset] == '{' && depth > 0 && read == Inside(Text(), offset, depth - 1)
      requires p == offset + 1 < |content| && r == ReadObject(content, read, p)
      modifies this`offset, this`depth
      ensures
          && offset <= |content| && (ok <==> r.Got?)
          && (ok ==> value == r.value && offset == r.next && depth == old(depth))
      decreases |content| - offset, 3
    {
      ghost var low := offset;
      offset := offset + 1;
      SkipWhitespace();
      ghost var first := offset;
      ObjectIs(content, read, p, first, r);
      if content[offset] == '}' {
        value := Object([]);
        offset := offset + 1;
        return true, value;
      }
      offset := offset - 1;
      var members;
      ok, members := ParseMembers(low, p, read, MemberReader(content, read, p), first);
      value := Object(members);
      if ok {
        offset := offset + 1;
      }
    }

    /** The loop over the members, from the character before the first one to the closing brace. */
    method ParseMembers(ghost low: nat, ghost s: nat, ghost read: nat -> Parsed<Value>, ghost one: nat -> Parsed<Member>,
                      ghost first: nat)
      returns (ok: bool, members: seq<Member>)
      requires Valid() && depth > 0 && s == low + 1 <= first == offset + 1 < |content|
      requires read == Inside(Text(), low, depth - 1) && one == MemberReader(content, read, s)
      modifies this`offset, this`depth
      ensures var r := ReadList(content, one, '}', first);
          && offset <= |content| && (ok <==> r.Got?)
          && (ok ==> Valid() && depth == old(depth) && r == Got(members, offset + 1))
      decreases |content| - offset, 2
    {
      ghost var all, p: nat := ReadList(content, one, '}', first), first;
      members := [];
      var more := true;
      BehindNone(all);
      while more
        invariant Valid() && old(offset) <= offset && depth == old(depth)
        invariant more ==> p == offset + 1 && ListLeft(content, one, '}', p, members, all)
        invariant !more ==> ListDone(content, '}', offset, members, all)
        decreases |content| - offset, more
      {
        ok, members, more, p := AddMember(members, low, s, read, one, p, all);
        if !ok {
          return;
        }
      }
      ok := content[offset] == '}';
    }

    /** One round of the loop: more says that a comma follows. */
    method AddMember(before: seq<Member>, ghost low: nat, ghost s: nat, ghost read: nat -> Parsed<Value>,
                   ghost one: nat -> Parsed<Member>, ghost p: nat, ghost all: Parsed<seq<Member>>)
      returns (ok: bool, members: seq<Member>, more: bool, ghost next: nat)
      requires Valid() && depth > 0 && s == low + 1 <= p == offset + 1
      requires read == Inside(Text(), low, depth - 1) && one == MemberReader(content, read, s)
      requires ListLeft(content, one, '}', p, before, all)
      modifies this`offset, this`depth
      ensures offset <= |content| && (!ok ==> all == Fail)
      ensures ok ==> Valid() && old(offset) < offset && depth == old(depth)
      ensures ok && more ==> next == offset + 1 && ListLeft(content, one, '}', next, members, all)
      ensures ok && !more ==> ListDone(content, '}', offset, members, all)
      decreases |content| - offset, 1
    {
      var x;
      ok, x := ParseMember(low, s, read, one, p);
      members, more, next := before, false, 0;
      if !ok {
        ElementFails(content, one, '}', p, before, all);
        return;
      }
      members := before + [x];
      more := content[offset] == ',';
      next := offset + 1;
      ElementParsed(content, one, '}', p, before, all, x, offset, next);
    }

    /** A name, with white space around it. */
    method ParseName(ghost p: nat, ghost q: nat, ghost r: Parsed<string>) returns (ok: bool, name: string)
      requires Valid() && p == offset + 1 < |content| && q == Skip(content, p) && r == ReadString(content, q)
      modifies this`offset
      ensures offset <= |content| && (ok <==> r.Got?)
      ensures ok ==> Valid() && old(offset) < offset && name == r.value && offset == Skip(content, r.next)
    {
      offset := offset + 1;
      SkipWhitespace();
      ok, name := ParseString(r);
      if ok {
        SkipWhitespace();
      }
    }

    /** A name and a colon, with white space around them. */
    method ParseKey(ghost p: nat, ghost key: Parsed<string>) returns (ok: bool, name: string)
      requires Valid() && p == offset + 1 < |content| && key == ReadKey(content, p)
      modifies this`offset
      ensures offset <= |content| && (ok <==> key.Got?)
      ensures ok ==> Valid() && old(offset) < offset && name == key.value && offset == Skip(content, key.next)
    {
      ghost var q, r := KeyIs(content, p, key);
      ok, name := ParseName(p, q, r);
      if !ok {
        return;
      }
      if content[offset] != ':' {
        return false, name;
      }
      offset := offset + 1;
      assert offset == key.next;
      SkipWhitespace();
    }

    /** A name, a colon and a value, with white space around them. */
    method ParseMember(ghost low: nat, ghost s: nat, ghost read: nat -> Parsed<Value>, ghost one: nat -> Parsed<Member>,
                       ghost p: nat)
      returns (ok: bool, member: Member)
      requires Valid() && depth > 0 && s == low + 1 <= p == offset + 1 < |content|
      requires read == Inside(Text(), low, depth - 1) && one == MemberReader(content, read, s)
      modifies this`offset, this`depth
      ensures var r := one(p);
          && offset <= |content| && (ok <==> r.Got?)
          && (ok ==> Valid() && old(offset) < offset && depth == old(depth))
          && (ok ==> member == r.value && offset == Skip(content, r.next))
      decreases |content| - offset, 0
    {
      member := Member("", Null);
      var name, value;
      ok, name := ParseKey(p, ReadKey(content, p));
      if !ok {
        return;
      }
      InsideIs(Text(), low, depth - 1, offset);
      ok, value := ParseValue();
      if !ok {
        return;
      }
      member := Member(name, value);
      SkipWhitespace();
    }
  }

  /** Stores s behind the first n characters. */
  method Emit(output: array<char>, n: nat, s: string) returns (n': nat)
    requires n + |s| <= output.Length
    modifies output
    ensures n' == n + |s| && output[..n'] == old(output[..n]) + s
  {
    for i := 0 to |s|
      invariant forall k :: 0 <= k < output.Length ==>
          output[k] == if n <= k < n + i then s[k - n] else old(output[k])
    {
      output[n + i] := s[i];
    }
    n' := n + |s|;
  }
}
