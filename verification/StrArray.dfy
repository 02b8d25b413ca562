/** String arrays over a C buffer (src/c_frontend/tdi_table_data_c.cpp): the size function, the
    printer that advances a pointer through the caller's buffer, and the strtok parser. */
module StrArray {
  import opened Strings

  type Uint32 = x: int | 0 <= x < 0x1_0000_0000

  /** Status codes are opaque numbers here, but for this one. */
  const INVALID_ARG: int := 3

  const NUL: char := '\0'

  /** Bytes a printed vector takes: its strings, the spaces between them, and the final NUL. */
  function Required(vec: seq<string>): nat {
    if vec == [] then 0 else |vec[0]| + 1 + Required(vec[1..])
  }

  lemma {:induction false} JoinSnoc(init: seq<string>, last: string, sep: string)
    requires init != []
    ensures Join(init + [last], sep) == Join(init, sep) + sep + last
  {
    if |init| == 1 {
      assert (init + [last])[1..] == [last];
    } else {
      assert (init + [last])[1..] == init[1..] + [last];
      JoinSnoc(init[1..], last, sep);
      assert init[0] + sep + (Join(init[1..], sep) + sep + last) == (init[0] + sep + Join(init[1..], sep)) + sep + last;
    }
  }

  lemma {:induction false} RequiredIsPrintedLength(vec: seq<string>)
    requires vec != []
    ensures Required(vec) == |Join(vec, " ")| + 1
  {
    if |vec| > 1 {
      RequiredIsPrintedLength(vec[1..]);
    }
  }

  lemma {:induction false} RequiredAppend(a: seq<string>, b: seq<string>)
    ensures Required(a + b) == Required(a) + Required(b)
  {
    if a == [] {
      assert a + b == b;
    } else {
      assert (a + b)[1..] == a[1..] + b;
      RequiredAppend(a[1..], b);
    }
  }

  // ---------- Size ----------

  /** `*array_size` is added to, in 32 bits. */
  method GetValueStrArraySize(vec: seq<string>, fetched: int, arraySize: Uint32) returns (status: int, out: Uint32)
    ensures status == fetched
    ensures out == (arraySize + Required(vec)) % 0x1_0000_0000
  {
    out := arraySize;
    for i := 0 to |vec|
      invariant out == (arraySize + Required(vec[..i])) % 0x1_0000_0000
    {
      assert vec[..i + 1] == vec[..i] + [vec[i]];
      RequiredAppend(vec[..i], [vec[i]]);
      out := (out + (|vec[i]| + 1)) % 0x1_0000_0000;
    }
    assert vec[..|vec|] == vec;
    status := fetched;
  }

  // ---------- Printer ----------

  function Gap(i: nat): string { if i == 0 then "" else " " }

  /** Printing string `i` adds the separator and the string, and takes their share of the space. */
  lemma NextString(vec: seq<string>, i: nat)
    requires i < |vec|
    ensures Join(vec[..i + 1], " ") == Join(vec[..i], " ") + Gap(i) + vec[i]
    ensures Required(vec) == |Join(vec[..i + 1], " ")| + 1 + Required(vec[i + 1..])
  {
    assert vec[..i + 1] == vec[..i] + [vec[i]];
    assert vec == vec[..i + 1] + vec[i + 1..];
    RequiredAppend(vec[..i + 1], vec[i + 1..]);
    RequiredIsPrintedLength(vec[..i + 1]);
    if i > 0 {
      JoinSnoc(vec[..i], vec[i], " ");
    } else {
      assert "" + "" + vec[0] == vec[0];
    }
  }

  lemma {:induction false} PrintedIsPrefix(vec: seq<string>, i: nat)
    requires i <= |vec|
    ensures Join(vec[..i], " ") <= Join(vec, " ")
    decreases |vec| - i
  {
    if i == |vec| {
      assert vec[..i] == vec;
    } else {
      NextString(vec, i);
      PrintedIsPrefix(vec, i + 1);
      assert Join(vec[..i], " ") + Gap(i) + vec[i] == Join(vec[..i], " ") + (Gap(i) + vec[i]);
    }
  }

  /** What a failing call leaves in memory: a prefix of the text, then what was there before. */
  ghost predicate PrefixWritten(vec: seq<string>, size: nat, now: seq<char>, before: seq<char>) {
    size <= |before| &&
    exists k :: 0 <= k <= |Join(vec, " ")| && k <= size && now == Join(vec, " ")[..k] + before[k..]
  }

  lemma FailureLeavesPrefix(vec: seq<string>, i: nat, shown: string, size: nat, now: seq<char>, before: seq<char>)
    requires i < |vec| && (shown == Join(vec[..i], " ") || shown == Join(vec[..i], " ") + Gap(i))
    requires |shown| <= size <= |before|
    requires now == shown + before[|shown|..]
    ensures PrefixWritten(vec, size, now, before)
    ensures now[size..] == before[size..]
  {
    NextString(vec, i);
    PrintedIsPrefix(vec, i + 1);
    assert shown <= Join(vec[..i + 1], " ");
    assert Join(vec, " ")[..|shown|] == shown;
  }

  /** `item.copy(val + pos, item.size())`, where `text` is what stands before `pos`. */
  method CopyString(item: string, val: array<char>, pos: nat, ghost text: string, ghost before: seq<char>)
    requires |before| == val.Length && |text| == pos && pos + |item| <= val.Length
    requires val[..] == text + before[pos..]
    modifies val
    ensures val[..] == text + item + before[pos + |item|..]
  {
    forall k | 0 <= k < |item| {
      val[pos + k] := item[k];
    }
    ghost var want := text + item + before[pos + |item|..];
    forall k | 0 <= k < val.Length
      ensures val[k] == want[k]
    {
      assert old(val[..])[k] == (text + before[pos..])[k];
    }
  }

  /** The pointer `pos` stands after the text of `vec[..i]`, `size` bytes before the end. */
  ghost predicate Printed(vec: seq<string>, i: nat, pos: nat, size: int, size0: nat, now: seq<char>, before: seq<char>)
    requires i <= |vec|
  {
    && 0 <= size && pos + size == size0 <= |before|
    && pos == |Join(vec[..i], " ")|
    && now == Join(vec[..i], " ") + before[pos..]
  }

  /** One turn of the loop: separator and string, or failure if they and a NUL do not fit. */
  method PrintItem(vec: seq<string>, i: nat, val: array<char>, pos0: nat, left: nat,
                   ghost size0: nat, ghost before: seq<char>)
    returns (ok: bool, pos: nat, size: nat)
    requires i < |vec| && |before| == val.Length
    requires Printed(vec, i, pos0, left, size0, val[..], before)
    modifies val
    ensures ok ==> Printed(vec, i + 1, pos, size, size0, val[..], before)
    ensures !ok ==> size0 < Required(vec) && PrefixWritten(vec, size0, val[..], before)
    ensures !ok ==> val[size0..] == before[size0..]
  {
    hide Join, Required;
    var item := vec[i];
    ghost var text := Join(vec[..i], " ");
    NextString(vec, i);
    pos, size := pos0, left;
    if i != 0 {
      if size == 0 {
        FailureLeavesPrefix(vec, i, text, size0, val[..], before);
        return false, pos, size;
      }
      CopyString(" ", val, pos, text, before);
      pos := pos + 1;
      size := size - 1;
    }
    assert val[..] == text + Gap(i) + before[pos..];
    if size <= |item| {
      FailureLeavesPrefix(vec, i, text + Gap(i), size0, val[..], before);
      return false, pos, size;
    }
    CopyString(item, val, pos, text + Gap(i), before);
    ok, pos, size := true, pos + |item|, size - |item|;
  }

  /** Prints the fetched vector into `val`, of which the first `size0` bytes are the caller's
      buffer.  Nothing past them is ever written.  It fails exactly when the buffer is shorter
      than required; if not, the strings with spaces between them and a NUL are all it writes
      (nothing for an empty vector and buffer).  If it fails it has written a prefix. */
  method GetValueStrArray(vec: seq<string>, fetched: int, size0: Uint32, val: array<char>) returns (status: int)
    requires size0 <= val.Length
    modifies val
    ensures val[size0..] == old(val[size0..])
    ensures status == if Required(vec) <= size0 then fetched else INVALID_ARG
    ensures Required(vec) <= size0 && 0 < size0 ==>
              |Join(vec, " ")| < size0 &&
              val[..] == Join(vec, " ") + [NUL] + old(val[|Join(vec, " ")| + 1..])
    ensures Required(vec) > size0 ==> PrefixWritten(vec, size0, val[..], old(val[..]))
    ensures size0 == 0 && vec == [] ==> val[..] == old(val[..])
  {
    hide Join, Required;
    Nothing();
    if size0 == 0 && |vec| == 0 {
      return fetched;
    }
    var size: nat, pos: nat := size0, 0;
    ghost var before := val[..];
    for i := 0 to |vec|
      invariant Printed(vec, i, pos, size, size0, val[..], before)
    {
      var ok;
      ok, pos, size := PrintItem(vec, i, val, pos, size, size0, before);
      if !ok {
        return INVALID_ARG;
      }
    }
    assert vec[..|vec|] == vec;
    ghost var text := Join(vec, " ");
    if vec != [] {
      RequiredIsPrintedLength(vec);
    }
    RestUntouched(text, size0, val[..], before);
    if size == 0 {
      assert text[..pos] == text;
      return INVALID_ARG;
    }
    CopyString([NUL], val, pos, text, before);
    RestUntouched(text + [NUL], size0, val[..], before);
    status := fetched;
  }

  lemma RestUntouched(text: string, size: nat, now: seq<char>, before: seq<char>)
    requires |text| <= size <= |before| && now == text + before[|text|..]
    ensures now[size..] == before[size..]
  {
  }

  lemma Nothing()
    ensures Join([], " ") == "" && Required([]) == 0
  {
  }

  // ---------- Parser ----------

  /** The C string at the start of `memory`: up to the first NUL. */
  function CString(memory: seq<char>): (s: string)
    requires NUL in memory
    ensures s <= memory && NUL !in s && |s| < |memory| && memory[|s|] == NUL
  {
    if memory[0] == NUL then [] else [memory[0]] + CString(memory[1..])
  }

  function NonEmpty(tokens: seq<string>): seq<string> {
    if tokens == [] then []
    else (if tokens[0] == "" then [] else [tokens[0]]) + NonEmpty(tokens[1..])
  }

  /** The space-separated words of a string. */
  function Words(s: string): seq<string> { NonEmpty(Split(s, ' ')) }

  lemma SkipSpace(s: string)
    requires s != "" && s[0] == ' '
    ensures Words(s) == Words(s[1..])
  {
    assert ([""] + Split(s[1..], ' '))[1..] == Split(s[1..], ' ');
  }

  lemma FirstWord(t: string, rest: string)
    requires t != "" && ' ' !in t && (rest == "" || rest[0] == ' ')
    ensures Words(t + rest) == [t] + Words(if rest == "" then "" else rest[1..])
  {
    SplitToken(t, rest, ' ');
    var after := if rest == "" then [] else Split(rest[1..], ' ');
    assert t + "" == t;
    assert Split(rest, ' ') == [""] + after;
    assert Split(t + rest, ' ') == [t] + after;
    assert ([t] + after)[1..] == after;
    assert NonEmpty(Split("", ' ')) == [];
  }

  datatype Token = NoToken | Token(text: string)

  /** `strtok`: skip spaces, take the text up to the next space, remember what follows it. */
  method Strtok(s: string, saved: nat) returns (token: Token, next: nat)
    requires saved <= |s|
    ensures saved <= next <= |s|
    ensures Words(s[saved..]) == if token.NoToken? then [] else [token.text] + Words(s[next..])
    ensures token.Token? ==> saved < next
  {
    var start := saved;
    while start < |s| && s[start] == ' '
      invariant saved <= start <= |s|
      invariant Words(s[start..]) == Words(s[saved..])
    {
      SkipSpace(s[start..]);
      assert s[start..][1..] == s[start + 1..];
      start := start + 1;
    }
    if start == |s| {
      assert s[start..] == "";
      return NoToken, start;
    }
    var end := start;
    while end < |s| && s[end] != ' '
      invariant start <= end <= |s|
      invariant ' ' !in s[start..end]
      invariant end == start ==> end < |s| && s[end] != ' '
    {
      assert s[start..end + 1] == s[start..end] + [s[end]];
      end := end + 1;
    }
    assert s[start..] == s[start..end] + s[end..];
    FirstWord(s[start..end], s[end..]);
    next := if end == |s| then end else end + 1;
    assert s[next..] == if s[end..] == "" then "" else s[end..][1..];
    token := Token(s[start..end]);
  }

  /** The vector handed to setValue: the words of the C string. */
  method SetValueStrArray(memory: seq<char>) returns (vec: seq<string>)
    requires NUL in memory
    ensures vec == Words(CString(memory))
  {
    hide Words, CString;
    var dup := CString(memory);
    vec := [];
    var token, saved := Strtok(dup, 0);
    ghost var from := 0;
    assert dup[0..] == dup;
    assert [] + Words(dup) == Words(dup);
    while token.Token?
      invariant from <= |dup| && saved <= |dup|
      invariant Words(dup[from..]) == if token.NoToken? then [] else [token.text] + Words(dup[saved..])
      invariant vec + Words(dup[from..]) == Words(dup)
      invariant token.Token? ==> from < saved
      decreases |dup| - from
    {
      Reassociate(vec, token.text, Words(dup[saved..]));
      vec := vec + [token.text];
      from := saved;
      token, saved := Strtok(dup, saved);
    }
  }

  lemma Reassociate(a: seq<string>, t: string, b: seq<string>)
    ensures a + ([t] + b) == (a + [t]) + b
  {
  }

  // ---------- Round trip ----------

  /** A string that survives: not empty, no space, no NUL. */
  predicate Clean(t: string) { t != "" && ' ' !in t && NUL !in t }

  lemma {:induction false} NonEmptyOfNonEmpty(tokens: seq<string>)
    requires "" !in tokens
    ensures NonEmpty(tokens) == tokens
  {
    if tokens != [] {
      NonEmptyOfNonEmpty(tokens[1..]);
    }
  }

  lemma {:induction false} NonEmptyIsSubset(tokens: seq<string>)
    ensures forall t :: t in NonEmpty(tokens) ==> t in tokens && t != ""
  {
    if tokens != [] {
      NonEmptyIsSubset(tokens[1..]);
    }
  }

  lemma WordsAreClean(s: string)
    requires NUL !in s
    ensures forall t :: t in Words(s) ==> Clean(t)
  {
    NonEmptyIsSubset(Split(s, ' '));
    SplitIsFree(s, ' ');
    SplitKeepsFree(s, ' ', NUL);
  }

  lemma WordsOfJoin(vec: seq<string>)
    requires forall t :: t in vec ==> Clean(t)
    ensures Words(Join(vec, " ")) == vec
  {
    if vec == [] {
      assert NonEmpty([""]) == [];
    } else {
      SplitJoin(vec, ' ');
      NonEmptyOfNonEmpty(vec);
    }
  }

  lemma {:induction false} CStringOf(text: string, rest: seq<char>)
    requires NUL !in text
    ensures NUL in text + [NUL] + rest && CString(text + [NUL] + rest) == text
  {
    var memory := text + [NUL] + rest;
    assert memory[|text|] == NUL;
    if text != "" {
      assert memory[1..] == text[1..] + [NUL] + rest;
      CStringOf(text[1..], rest);
    }
  }

  /** Parsing what was printed gives the vector back exactly when each of its strings is not
      empty and free of spaces and NULs, whatever stood in the buffer before. */
  lemma RoundTripIff(vec: seq<string>, rest: seq<char>)
    ensures NUL in Join(vec, " ") + [NUL] + rest
    ensures Words(CString(Join(vec, " ") + [NUL] + rest)) == vec <==> forall t :: t in vec ==> Clean(t)
  {
    var text := Join(vec, " ");
    assert (text + [NUL] + rest)[|text|] == NUL;
    if forall t :: t in vec ==> Clean(t) {
      JoinFree(vec, " ", NUL);
      CStringOf(text, rest);
      WordsOfJoin(vec);
    } else {
      WordsAreClean(CString(text + [NUL] + rest));
    }
  }

  datatype Parsed = NotParsed | Parsed(vec: seq<string>)

  /** Ask for the size, print into a buffer of at least that size, and parse the result if it is a
      C string.  The size is kept in 32 bits, so printing succeeds exactly when the text needs
      fewer than 2^32 bytes; then the vector comes back exactly when its strings survive.  For an
      empty vector the size is 0 and nothing is written, not even a NUL: what is parsed, if
      anything, is what stood in the buffer before. */
  method PrintThenParse(vec: seq<string>, val: array<char>) returns (size: Uint32, ok: bool, back: Parsed)
    requires Required(vec) % 0x1_0000_0000 <= val.Length
    modifies val
    ensures ok <==> Required(vec) < 0x1_0000_0000
    ensures ok <==> size == Required(vec)
    ensures ok && vec != [] ==> back.Parsed? && (back.vec == vec <==> forall t :: t in vec ==> Clean(t))
    ensures vec == [] ==> ok && val[..] == old(val[..])
    ensures vec == [] ==> back == if NUL in old(val[..]) then Parsed(Words(CString(old(val[..])))) else NotParsed
  {
    hide Join, Required, Words, CString, PrefixWritten;
    Nothing();
    var fetched;
    fetched, size := GetValueStrArraySize(vec, 0, 0);
    ReportedSize(Required(vec), size);
    var status := GetValueStrArray(vec, fetched, size, val);
    ok, back := status == 0, NotParsed;
    if vec != [] {
      RequiredIsPrintedLength(vec);
      if ok {
        RoundTripIff(vec, old(val[|Join(vec, " ")| + 1..]));
      }
    }
    if ok && NUL in val[..] {
      var parsed := SetValueStrArray(val[..]);
      back := Parsed(parsed);
    }
  }

  lemma ReportedSize(required: nat, size: nat)
    requires size == required % 0x1_0000_0000
    ensures required <= size <==> required < 0x1_0000_0000
    ensures size == required <==> required < 0x1_0000_0000
  {
  }
}
