/**
 * The printer, which writes into a buffer that grows.
 */
module JsonPrint {
  import opened Strings
  import opened JsonString
  import opened JsonValue

  const INT_MAX := 0x7FFF_FFFF
  const DEFAULT_BUFFER_SIZE := 256

  // ---- Texts without NUL ----

  /** Strings and number tokens without NUL; a token is no longer than print_number accepts. */
  ghost predicate Clean(v: Value) {
    match v
    case Null => true
    case False => true
    case True => true
    case Number(token) => NoNul(token) && |token| <= NUMBER_LIMIT
    case Text(s) => NoNul(s)
    case Array(items) => forall i :: 0 <= i < |items| ==> Clean(items[i])
    case Object(members) => forall i :: 0 <= i < |members| ==> NoNul(members[i].key) && Clean(members[i].value)
  }

  lemma {:induction false} PrintableIsClean(v: Value, scan: string -> nat, room: int)
    requires Printable(v, scan, room)
    ensures Clean(v)
    decreases v
  {
    match v
    case Array(items) =>
      forall i | 0 <= i < |items| ensures Clean(items[i]) {
        PrintableIsClean(items[i], scan, room - 1);
      }
    case Object(members) =>
      forall i | 0 <= i < |members| ensures NoNul(members[i].key) && Clean(members[i].value) {
        PrintableIsClean(members[i].value, scan, room - 1);
      }
    case _ =>
  }

  lemma {:induction false} EscapedNoNul(s: string)
    requires NoNul(s)
    ensures NoNul(Escaped(s)) && NoNul(Quoted(s))
    decreases |s|
  {
    if s != "" {
      EscapedNoNul(s[..|s| - 1]);
      EscapeShape(s[|s| - 1]);
    }
  }

  lemma {:induction false} RenderNoNul(v: Value, format: bool, depth: nat)
    requires Clean(v)
    ensures NoNul(Render(v, format, depth))
    decreases v
  {
    match v
    case Text(s) => EscapedNoNul(s);
    case Array(items) => ItemsNoNul(v, 0, format, depth + 1);
    case Object(members) => MembersNoNul(v, 0, format, depth + 1);
    case _ =>
  }

  lemma {:induction false} ItemsNoNul(v: Value, i: nat, format: bool, depth: nat)
    requires Clean(v) && v.Array? && i <= |v.items|
    ensures NoNul(RenderItems(v, i, format, depth))
    decreases v, |v.items| - i
  {
    if i < |v.items| {
      RenderNoNul(v.items[i], format, depth);
      ItemsNoNul(v, i + 1, format, depth);
    }
  }

  lemma {:induction false} MembersNoNul(v: Value, i: nat, format: bool, depth: nat)
    requires Clean(v) && v.Object? && i <= |v.members| && depth > 0
    ensures NoNul(RenderMembers(v, i, format, depth))
    decreases v, |v.members| - i
  {
    if i < |v.members| {
      StartNoNul(v.members[i].key, format, depth);
      RenderNoNul(v.members[i].value, format, depth);
      MembersNoNul(v, i + 1, format, depth);
      JoinedNoNul(MemberStart(v.members[i].key, format, depth), Render(v.members[i].value, format, depth),
                  MemberEnd(i + 1 == |v.members|, format), RenderMembers(v, i + 1, format, depth));
    }
  }

  lemma JoinedNoNul(a: string, b: string, c: string, d: string)
    requires NoNul(a) && NoNul(b) && NoNul(c) && NoNul(d)
    ensures NoNul(a + (b + (c + d)))
  {
  }

  lemma {:induction false} StartNoNul(key: string, format: bool, depth: nat)
    requires NoNul(key)
    ensures NoNul(MemberStart(key, format, depth))
  {
    EscapedNoNul(key);
  }

  // ---- The buffer ----

  class PrintBuffer {
    var buffer: array<char>
    var offset: nat
    var depth: nat
    const noalloc: bool
    const format: bool
    /** Whether the hooks have a realloc. */
    const reallocate: bool

    constructor (size: nat, noalloc: bool, format: bool, reallocate: bool)
      ensures Valid() && offset == 0 && depth == 0 && fresh(buffer) && buffer.Length == size
      ensures this.noalloc == noalloc && this.format == format
    {
      buffer := new char[size];
      offset, depth := 0, 0;
      this.noalloc, this.format, this.reallocate := noalloc, format, reallocate;
    }

    /** A buffer of the caller's, which cannot grow. */
    constructor Preallocated(buffer: array<char>, format: bool)
      ensures Valid() && offset == 0 && depth == 0 && this.buffer == buffer
      ensures this.noalloc && this.format == format
    {
      this.buffer, offset, depth := buffer, 0, 0;
      noalloc, this.format, reallocate := true, format, false;
    }

    /** Only an empty buffer has no room for a NUL at the offset. */
    ghost predicate Valid()
      reads this
    {
      offset <= buffer.Length && (buffer.Length > 0 ==> offset < buffer.Length)
    }

    /** The most that the buffer can ever hold. */
    function Limit(): nat
      reads this
    {
      if noalloc && buffer.Length < INT_MAX then buffer.Length else INT_MAX
    }

    /** What has been printed so far. */
    ghost function Printed(): (s: string)
      requires Valid()
      reads this, buffer
      ensures |s| == offset
    {
      buffer[..offset]
    }

    /** The text stands at index at, with a NUL behind it. */
    ghost predicate Holds(at: nat, text: string)
      reads this, buffer
    {
      && at + |text| < buffer.Length && buffer[at..at + |text|] == text
      && buffer[at + |text|] == NUL
    }

    /** ensure: room for needed bytes and one more. */
    method Ensure(needed: nat) returns (ok: bool)
      requires Valid()
      modifies this
      ensures Valid() && offset == old(offset) && depth == old(depth)
      ensures buffer == old(buffer) || (!noalloc && fresh(buffer))
      ensures buffer.Length >= old(buffer.Length) && Printed() == old(Printed())
      ensures ok ==> offset + needed + 1 <= buffer.Length
      ensures offset + needed + 1 <= Limit() ==> ok
    {
      if needed > INT_MAX {
        return false;
      }
      var total := needed + offset + 1;
      if total <= buffer.Length {
        return true;
      }
      if noalloc {
        return false;
      }
      var size;
      if total > INT_MAX / 2 {
        if total > INT_MAX {
          return false;
        }
        size := INT_MAX;
      } else {
        size := total * 2;
      }
      var bigger := new char[size];
      CopyInto(buffer, bigger, if reallocate || buffer.Length == 0 then buffer.Length else offset + 1);
      assert bigger[..offset] == buffer[..offset];
      buffer := bigger;
      ok := true;
    }

    /** strcpy or memcpy to the place that ensure gave. */
    method Store(text: string)
      requires Valid() && offset + |text| <= buffer.Length
      modifies buffer
      ensures Printed() == old(Printed())
      ensures buffer[offset..offset + |text|] == text
      ensures forall k :: offset + |text| <= k < buffer.Length ==> buffer[k] == old(buffer[k])
    {
      for i := 0 to |text|
        invariant forall k :: 0 <= k < buffer.Length ==>
            buffer[k] == if offset <= k < offset + i then text[k - offset] else old(buffer[k])
      {
        buffer[offset + i] := text[i];
      }
    }

    /** Writes a text with its NUL, and leaves the offset. */
    method Put(text: string, needed: nat) returns (ok: bool)
      requires Valid() && |text| <= needed
      modifies this, buffer
      ensures Valid() && offset == old(offset) && depth == old(depth) && (buffer == old(buffer) || (!noalloc && fresh(buffer)))
      ensures buffer.Length >= old(buffer.Length) && Printed() == old(Printed())
      ensures ok ==> Holds(offset, text)
      ensures offset + needed + 1 <= Limit() ==> ok
    {
      ok := Ensure(needed);
      if ok {
        Store(text);
        buffer[offset + |text|] := NUL;
      }
    }

    /** Writes a text and moves the offset behind it. */
    method Append(text: string, needed: nat) returns (ok: bool)
      requires Valid() && |text| <= needed
      modifies this, buffer
      ensures Valid() && depth == old(depth) && (buffer == old(buffer) || (!noalloc && fresh(buffer)))
      ensures buffer.Length >= old(buffer.Length)
      ensures ok ==> Printed() == old(Printed()) + text
      ensures old(offset) + needed + 1 <= Limit() ==> ok
    {
      ok := Ensure(needed);
      if ok {
        Store(text);
        assert buffer[..offset + |text|] == buffer[..offset] + buffer[offset..offset + |text|];
        offset := offset + |text|;
      }
    }

    /** Behind what was printed before stands the text, and a NUL; the offset is in it or at its end. */
    twostate predicate Added(text: string)
      reads this, buffer
    {
      && Valid() && Holds(old(offset), text) && old(offset) <= offset <= old(offset) + |text|
      && old(Valid()) && buffer[..old(offset)] == old(Printed())
    }

    /** update_offset: moves the offset to the next NUL. */
    method UpdateOffset(ghost start: nat, ghost text: string)
      requires Valid() && Holds(start, text) && NoNul(text) && start <= offset <= start + |text|
      modifies this`offset
      ensures Valid() && offset == start + |text| && Printed() == old(buffer[..start]) + text
    {
      assert forall k :: start <= k < start + |text| ==> buffer[k] == buffer[start..start + |text|][k - start];
      while buffer[offset] != NUL
        invariant Valid() && start <= offset <= start + |text|
        decreases start + |text| - offset
      {
        offset := offset + 1;
      }
      assert buffer[..offset] == buffer[..start] + buffer[start..offset];
    }

    /** The first loop of print_string_ptr: the length of the escaped text. */
    method EscapedLength(s: string) returns (length: nat)
      ensures length == |Escaped(s)|
    {
      var extra := 0;
      for i := 0 to |s|
        invariant i + extra == |Escaped(s[..i])|
      {
        assert s[..i + 1][..i] == s[..i];
        if ShortEscape(s[i]) != NUL {
          extra := extra + 1;
        } else if s[i] as nat < 32 {
          extra := extra + 5;
        }
      }
      assert s[..|s|] == s;
      length := |s| + extra;
    }

    /** Stores a text from index p on. */
    method StoreAt(p: nat, text: string)
      requires p + |text| <= buffer.Length
      modifies buffer
      ensures buffer[p..p + |text|] == text && buffer[..p] == old(buffer[..p])
      ensures forall k :: p + |text| <= k < buffer.Length ==> buffer[k] == old(buffer[k])
    {
      for i := 0 to |text|
        invariant forall k :: 0 <= k < buffer.Length ==>
            buffer[k] == if p <= k < p + i then text[k - p] else old(buffer[k])
      {
        buffer[p + i] := text[i];
      }
    }

    /** A character or its escape, behind what stands before it. */
    method StoreEscape(c: char, p: nat, ghost before: string)
      requires p + |Escape(c)| <= buffer.Length && buffer[..p] == before
      modifies buffer
      ensures buffer[..p + |Escape(c)|] == before + Escape(c)
    {
      StoreAt(p, Escape(c));
      ghost var e := Escape(c);
      assert buffer[..p + |e|] == buffer[..p] + buffer[p..p + |e|];
    }

    /** The second loop of print_string_ptr, which writes each character or its escape. */
    method StoreEscaped(s: string, p0: nat)
      requires p0 + |Escaped(s)| <= buffer.Length
      modifies buffer
      ensures buffer[..p0 + |Escaped(s)|] == old(buffer[..p0]) + Escaped(s)
    {
      var p := p0;
      for i := 0 to |s|
        invariant p == p0 + |Escaped(s[..i])| && p <= p0 + |Escaped(s)|
        invariant buffer[..p] == old(buffer[..p0]) + Escaped(s[..i])
      {
        EscapedGrows(s, i);
        StoreEscape(s[i], p, old(buffer[..p0]) + Escaped(s[..i]));
        Regroup(old(buffer[..p0]), Escaped(s[..i]), Escape(s[i]));
        p := p + |Escape(s[i])|;
      }
      assert s[..|s|] == s;
    }

    /** print_string_ptr. */
    method PrintString(s: string) returns (ok: bool)
      requires Valid()
      modifies this, buffer
      ensures Valid() && offset == old(offset) && depth == old(depth) && (buffer == old(buffer) || (!noalloc && fresh(buffer)))
      ensures buffer.Length >= old(buffer.Length) && Printed() == old(Printed())
      ensures ok ==> Holds(offset, Quoted(s))
      ensures offset + |Quoted(s)| + 2 <= Limit() ==> ok
    {
      var length := EscapedLength(s);
      ok := Ensure(length + 3);
      if !ok {
        return;
      }
      StoreQuoted(s, length);
    }

    /** The quotes, what is between them, and the NUL. */
    method StoreQuoted(s: string, length: nat)
      requires Valid() && length == |Escaped(s)| && offset + length + 2 < buffer.Length
      modifies buffer
      ensures Printed() == old(Printed()) && Holds(offset, Quoted(s))
    {
      ghost var before := Printed();
      buffer[offset] := QUOTE;
      assert buffer[..offset + 1] == before + [QUOTE];
      StoreEscaped(s, offset + 1);
      buffer[offset + length + 1] := QUOTE;
      buffer[offset + length + 2] := NUL;
      QuotedStands(buffer[..], before, s);
    }

    /** print_value. */
    method PrintValue(v: Value) returns (ok: bool)
      requires Valid() && Clean(v)
      modifies this, buffer
      ensures Valid() && (buffer == old(buffer) || (!noalloc && fresh(buffer))) && buffer.Length >= old(buffer.Length)
      ensures ok ==> Added(Render(v, format, old(depth))) && depth == old(depth)
      ensures old(offset) + |Render(v, format, old(depth))| + 2 <= old(Limit()) ==> ok
      decreases v, 3
    {
      match v
      case Null => ok := Put("null", 5);
      case False => ok := Put("false", 6);
      case True => ok := Put("true", 5);
      case Number(token) => ok := PrintNumber(token);
      case Text(s) => ok := PrintString(s);
      case Array(_) => ok := PrintArray(v);
      case Object(_) => ok := PrintObject(v);
    }

    /** print_number, for a number whose text is token. */
    method PrintNumber(token: string) returns (ok: bool)
      requires Valid() && NoNul(token) && |token| <= NUMBER_LIMIT
      modifies this, buffer
      ensures Valid() && (buffer == old(buffer) || (!noalloc && fresh(buffer))) && buffer.Length >= old(buffer.Length)
      ensures ok ==> Added(token) && depth == old(depth)
      ensures old(offset) + |token| + 2 <= old(Limit()) ==> ok
    {
      ok := Put(token, |token| + 1);
      if ok {
        offset := offset + |token|;
      }
    }

    /** An element in its place: the text of v is added, and the offset moved behind it. */
    method PrintElement(v: Value) returns (ok: bool)
      requires Valid() && Clean(v)
      modifies this, buffer
      ensures Valid() && (buffer == old(buffer) || (!noalloc && fresh(buffer))) && buffer.Length >= old(buffer.Length)
      ensures ok ==> Printed() == old(Printed()) + Render(v, format, old(depth)) && depth == old(depth)
      ensures old(offset) + |Render(v, format, old(depth))| + 2 <= old(Limit()) ==> ok
      decreases v, 4
    {
      ghost var start, text := offset, Render(v, format, depth);
      ok := PrintValue(v);
      if ok {
        RenderNoNul(v, format, depth);
        UpdateOffset(start, text);
      }
    }

    /** print_array. */
    method PrintArray(v: Value) returns (ok: bool)
      requires Valid() && Clean(v) && v.Array?
      modifies this, buffer
      ensures Valid() && (buffer == old(buffer) || (!noalloc && fresh(buffer))) && buffer.Length >= old(buffer.Length)
      ensures ok ==> Added(Render(v, format, old(depth))) && depth == old(depth)
      ensures old(offset) + |Render(v, format, old(depth))| + 2 <= old(Limit()) ==> ok
      decreases v, 2
    {
      ghost var text, rest := Render(v, format, depth), RenderItems(v, 0, format, depth + 1);
      ghost var before := Printed();
      ItemsEnd(v, 0, format, depth + 1);
      ok := OpenArray(rest, before + text);
      if !ok {
        return;
      }
      ok := PrintItems(v, before + text);
      if !ok {
        return;
      }
      ok := Close("]", 2, before, text);
      depth := depth - 1;
    }

    /** The opening bracket. */
    method OpenArray(ghost rest: string, ghost whole: string) returns (ok: bool)
      requires Valid() && rest != "" && Printed() + ("[" + rest) == whole
      modifies this, buffer
      ensures Valid() && (buffer == old(buffer) || (!noalloc && fresh(buffer))) && buffer.Length >= old(buffer.Length)
      ensures ok ==> depth == old(depth) + 1 && Printed() + rest == whole
      ensures |whole| + 2 <= old(Limit()) ==> ok
    {
      ghost var before := Printed();
      ok := Append("[", 1);
      depth := depth + 1;
      Regroup(before, "[", rest);
    }

    /** The end of an array or an object, which completes its text. */
    method Close(end: string, needed: nat, ghost before: string, ghost text: string) returns (ok: bool)
      requires Valid() && |end| <= needed && Printed() + end == before + text
      modifies this, buffer
      ensures Valid() && offset == old(offset) && depth == old(depth) && (buffer == old(buffer) || (!noalloc && fresh(buffer)))
      ensures buffer.Length >= old(buffer.Length)
      ensures ok ==> Holds(|before|, text) && buffer[..|before|] == before && |before| + |text| == offset + |end|
      ensures offset + needed + 1 <= Limit() ==> ok
    {
      ok := Put(end, needed);
      if ok {
        Stands(buffer[..], before, text, Printed(), end);
      }
    }

    /** The loop over the items. */
    method PrintItems(v: Value, ghost whole: string) returns (ok: bool)
      requires Valid() && Clean(v) && v.Array? && Printed() + RenderItems(v, 0, format, depth) == whole
      modifies this, buffer
      ensures Valid() && (buffer == old(buffer) || (!noalloc && fresh(buffer))) && buffer.Length >= old(buffer.Length)
      ensures ok ==> depth == old(depth) && Printed() + "]" == whole
      ensures |whole| + 2 <= old(Limit()) ==> ok
      decreases v, 1
    {
      for i := 0 to |v.items|
        invariant Valid() && (buffer == old(buffer) || (!noalloc && fresh(buffer))) && buffer.Length >= old(buffer.Length)
        invariant depth == old(depth) && Printed() + RenderItems(v, i, format, depth) == whole
      {
        ok := PrintItem(v, i, whole);
        if !ok {
          return;
        }
      }
      ok := true;
    }

    /** One item and, unless it is the last, the separator. */
    method PrintItem(v: Value, i: nat, ghost whole: string) returns (ok: bool)
      requires Valid() && Clean(v) && v.Array? && i < |v.items| && Printed() + RenderItems(v, i, format, depth) == whole
      modifies this, buffer
      ensures Valid() && (buffer == old(buffer) || (!noalloc && fresh(buffer))) && buffer.Length >= old(buffer.Length)
      ensures ok ==> depth == old(depth) && Printed() + RenderItems(v, i + 1, format, depth) == whole
      ensures |whole| + 2 <= old(Limit()) ==> ok
      decreases v, 0
    {
      ghost var item, last := Render(v.items[i], format, depth), i + 1 == |v.items|;
      ghost var rest := RenderItems(v, i + 1, format, depth);
      ghost var before := Printed();
      ItemsEnd(v, i + 1, format, depth);
      ok := PrintElement(v.items[i]);
      if !ok {
        return;
      }
      Regroup(before, item, Separator(last, format) + rest);
      if i + 1 < |v.items| {
        ghost var now := Printed();
        ok := Append(Separator(false, format), |Separator(false, format)| + 1);
        Regroup(now, Separator(false, format), rest);
      }
    }

    /** print_object. */
    method PrintObject(v: Value) returns (ok: bool)
      requires Valid() && Clean(v) && v.Object?
      modifies this, buffer
      ensures Valid() && (buffer == old(buffer) || (!noalloc && fresh(buffer))) && buffer.Length >= old(buffer.Length)
      ensures ok ==> Added(Render(v, format, old(depth))) && depth == old(depth)
      ensures old(offset) + |Render(v, format, old(depth))| + 2 <= old(Limit()) ==> ok
      decreases v, 2
    {
      ghost var text, rest := Render(v, format, depth), RenderMembers(v, 0, format, depth + 1);
      ghost var before := Printed();
      MembersEnd(v, 0, format, depth + 1);
      ok := OpenObject(rest, before + text);
      if !ok {
        return;
      }
      ok := PrintMembers(v, before + text);
      if !ok {
        return;
      }
      ok := Close(Pretty(format, Tabs(depth - 1)) + "}", if format then depth + 1 else 2, before, text);
      depth := depth - 1;
    }

    /** The opening brace. */
    method OpenObject(ghost rest: string, ghost whole: string) returns (ok: bool)
      requires Valid() && rest != "" && Printed() + (("{" + Pretty(format, "\n")) + rest) == whole
      modifies this, buffer
      ensures Valid() && (buffer == old(buffer) || (!noalloc && fresh(buffer))) && buffer.Length >= old(buffer.Length)
      ensures ok ==> depth == old(depth) + 1 && Printed() + rest == whole
      ensures |whole| + 2 <= old(Limit()) ==> ok
    {
      ghost var before := Printed();
      ok := Append("{" + Pretty(format, "\n"), |Pretty(format, "\n")| + 2);
      depth := depth + 1;
      Regroup(before, "{" + Pretty(format, "\n"), rest);
    }

    /** The loop over the members. */
    method PrintMembers(v: Value, ghost whole: string) returns (ok: bool)
      requires Valid() && Clean(v) && v.Object? && depth > 0 && Printed() + RenderMembers(v, 0, format, depth) == whole
      modifies this, buffer
      ensures Valid() && (buffer == old(buffer) || (!noalloc && fresh(buffer))) && buffer.Length >= old(buffer.Length)
      ensures ok ==> depth == old(depth) && Printed() + (Pretty(format, Tabs(depth - 1)) + "}") == whole
      ensures |whole| + 2 <= old(Limit()) ==> ok
      decreases v, 1
    {
      for i := 0 to |v.members|
        invariant Valid() && (buffer == old(buffer) || (!noalloc && fresh(buffer))) && buffer.Length >= old(buffer.Length)
        invariant depth == old(depth) && Printed() + RenderMembers(v, i, format, depth) == whole
      {
        ok := PrintMember(v, i, whole);
        if !ok {
          return;
        }
      }
      ok := true;
    }

    /** The tabs, the key and the colon of a member. */
    method PrintStart(key: string) returns (ok: bool)
      requires Valid() && NoNul(key)
      modifies this, buffer
      ensures Valid() && (buffer == old(buffer) || (!noalloc && fresh(buffer))) && buffer.Length >= old(buffer.Length)
      ensures ok ==> depth == old(depth) && Printed() == old(Printed()) + MemberStart(key, format, depth)
      ensures old(offset) + |MemberStart(key, format, old(depth))| + 2 <= old(Limit()) ==> ok
    {
      ghost var before, tabs := Printed(), Pretty(format, Tabs(depth));
      var colon := ":" + Pretty(format, "\t");
      ok := PrintTabs();
      if !ok {
        return;
      }
      ok := PrintKey(key);
      if !ok {
        return;
      }
      ok := Append(colon, |colon|);
      Regroup(before + tabs, Quoted(key), colon);
      Regroup(before, tabs, Quoted(key) + colon);
    }

    method PrintTabs() returns (ok: bool)
      requires Valid()
      modifies this, buffer
      ensures Valid() && (buffer == old(buffer) || (!noalloc && fresh(buffer))) && buffer.Length >= old(buffer.Length)
      ensures ok ==> depth == old(depth) && Printed() == old(Printed()) + Pretty(format, Tabs(depth))
      ensures old(offset) + |Pretty(format, Tabs(old(depth)))| + 1 <= old(Limit()) ==> ok
    {
      ok := true;
      if format {
        ok := Append(Tabs(depth), depth);
      } else {
        assert Printed() + "" == Printed();
      }
    }

    /** A key, and the offset behind it. */
    method PrintKey(key: string) returns (ok: bool)
      requires Valid() && NoNul(key)
      modifies this, buffer
      ensures Valid() && (buffer == old(buffer) || (!noalloc && fresh(buffer))) && buffer.Length >= old(buffer.Length)
      ensures ok ==> depth == old(depth) && Printed() == old(Printed()) + Quoted(key)
      ensures old(offset) + |Quoted(key)| + 2 <= old(Limit()) ==> ok
    {
      ghost var start := offset;
      ok := PrintString(key);
      if ok {
        EscapedNoNul(key);
        UpdateOffset(start, Quoted(key));
      }
    }

    /** One member. */
    method PrintMember(v: Value, i: nat, ghost whole: string) returns (ok: bool)
      requires Valid() && Clean(v) && v.Object? && i < |v.members| && depth > 0
      requires Printed() + RenderMembers(v, i, format, depth) == whole
      modifies this, buffer
      ensures Valid() && (buffer == old(buffer) || (!noalloc && fresh(buffer))) && buffer.Length >= old(buffer.Length)
      ensures ok ==> depth == old(depth) && Printed() + RenderMembers(v, i + 1, format, depth) == whole
      ensures |whole| + 2 <= old(Limit()) ==> ok
      decreases v, 0
    {
      ghost var before, start := Printed(), MemberStart(v.members[i].key, format, depth);
      ghost var item, rest := Render(v.members[i].value, format, depth), RenderMembers(v, i + 1, format, depth);
      var end := MemberEnd(i + 1 == |v.members|, format);
      MembersEnd(v, i + 1, format, depth);
      Regroup(before, start, item + (end + rest));
      ok := PrintStart(v.members[i].key);
      if !ok {
        return;
      }
      Regroup(before + start, item, end + rest);
      ok := PrintElement(v.members[i].value);
      if !ok {
        return;
      }
      Regroup(before + start + item, end, rest);
      ok := Append(end, |end| + 1);
    }
  }

  lemma {:induction false} MembersEnd(v: Value, i: nat, format: bool, depth: nat)
    requires v.Object? && i <= |v.members| && depth > 0
    ensures RenderMembers(v, i, format, depth) != ""
    decreases |v.members| - i
  {
    if i < |v.members| {
      MembersEnd(v, i + 1, format, depth);
    }
  }

  lemma {:induction false} EscapedGrows(s: string, i: nat)
    requires i < |s|
    ensures Escaped(s[..i + 1]) == Escaped(s[..i]) + Escape(s[i])
    ensures |Escaped(s[..i])| + |Escape(s[i])| <= |Escaped(s)|
    decreases |s|
  {
    assert s[..i + 1][..i] == s[..i];
    if i + 1 == |s| {
      assert s[..i + 1] == s;
    } else {
      var front := s[..|s| - 1];
      EscapedGrows(front, i);
      assert front[..i] == s[..i] && front[i] == s[i];
    }
  }

  /** The pieces that print_string_ptr writes are the quoted string. */
  lemma QuotedStands(b: string, before: string, s: string)
    requires var n := |before| + 1 + |Escaped(s)|;
        n + 1 < |b| && b[..n] == before + [QUOTE] + Escaped(s) && b[n] == QUOTE
    ensures b[..|before|] == before && b[|before|..|before| + |Quoted(s)|] == Quoted(s)
  {
    var n := |before| + 1 + |Escaped(s)|;
    assert b[..n + 1] == b[..n] + [b[n]];
    assert b[..n + 1] == before + Quoted(s);
    assert b[|before|..n + 1] == b[..n + 1][|before|..];
    assert b[..|before|] == b[..n + 1][..|before|];
  }

  /** What was printed in pieces stands as a whole behind what was there before. */
  lemma Stands(b: string, before: string, text: string, printed: string, last: string)
    requires |printed| + |last| <= |b| && b[..|printed|] == printed && b[|printed|..|printed| + |last|] == last
    requires printed + last == before + text
    ensures b[..|before|] == before && b[|before|..|before| + |text|] == text
    ensures |before| + |text| == |printed| + |last|
  {
    var n := |printed| + |last|;
    assert b[..n] == printed + last;
    assert b[..|before|] == b[..n][..|before|] && b[|before|..n] == b[..n][|before|..];
  }

  lemma {:induction false} ItemsEnd(v: Value, i: nat, format: bool, depth: nat)
    requires v.Array? && i <= |v.items|
    ensures RenderItems(v, i, format, depth) != ""
    decreases |v.items| - i
  {
    if i < |v.items| {
      ItemsEnd(v, i + 1, format, depth);
    }
  }

  method CopyInto(from: array<char>, to: array<char>, n: nat)
    requires n <= from.Length && n <= to.Length && from != to
    modifies to
    ensures to[..n] == from[..n]
  {
    for i := 0 to n
      invariant forall k :: 0 <= k < i ==> to[k] == from[k]
    {
      to[i] := from[i];
    }
  }
}
