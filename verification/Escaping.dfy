/** The escapers of the annotation and Markdown renderers, and the decoders that undo them. */
module Escaping {
  import opened Basics

  // ---------------------------------------------------------------- workflow commands

  /** strings.ReplaceAll of one character. */
  function ReplaceAll(s: string, c: char, sub: string): string {
    if s == "" then "" else (if s[0] == c then sub else [s[0]]) + ReplaceAll(s[1..], c, sub)
  }

  /** annotationMessage: three replacements, one after the other. */
  method AnnotationMessage(value: string) returns (s: string)
    ensures s == Encode(value, MESSAGE)
  {
    s := value;
    s := ReplaceAll(s, '%', "%25");
    s := ReplaceAll(s, '\r', "%0D");
    s := ReplaceAll(s, '\n', "%0A");
    MessageIsOnePass(value);
  }

  /** annotationProperty: the message, then two more replacements. */
  method AnnotationProperty(value: string) returns (s: string)
    ensures s == Encode(value, PROPERTY)
  {
    s := AnnotationMessage(value);
    s := ReplaceAll(s, ':', "%3A");
    s := ReplaceAll(s, ',', "%2C");
    PropertyIsOnePass(value);
  }

  const MESSAGE: set<char> := {'%', '\r', '\n'}
  const PROPERTY: set<char> := {'%', '\r', '\n', ':', ','}

  /** The escape of one character. */
  function Code(c: char): string {
    if c == '%' then "%25" else if c == '\r' then "%0D" else if c == '\n' then "%0A"
    else if c == ':' then "%3A" else if c == ',' then "%2C" else [c]
  }

  /** The escapes of some characters, each replaced where it stands. */
  function Encode(s: string, special: set<char>): string {
    if s == "" then "" else (if s[0] in special then Code(s[0]) else [s[0]]) + Encode(s[1..], special)
  }

  function HexDigit(c: char): Option<nat> {
    if '0' <= c <= '9' then Some(c as nat - '0' as nat)
    else if 'A' <= c <= 'F' then Some(c as nat - 'A' as nat + 10)
    else None
  }

  /** A one-pass percent decoder; a '%' without two digits stands for itself. */
  function Decode(s: string): string {
    if s == "" then ""
    else if s[0] == '%' && |s| >= 3 && HexDigit(s[1]).Some? && HexDigit(s[2]).Some? then
      [(16 * HexDigit(s[1]).value + HexDigit(s[2]).value) as char] + Decode(s[3..])
    else [s[0]] + Decode(s[1..])
  }

  lemma {:induction false} ReplaceConcat(a: string, b: string, c: char, sub: string)
    ensures ReplaceAll(a + b, c, sub) == ReplaceAll(a, c, sub) + ReplaceAll(b, c, sub)
  {
    if a == "" {
      assert a + b == b;
    } else {
      assert (a + b)[1..] == a[1..] + b;
      ReplaceConcat(a[1..], b, c, sub);
    }
  }

  lemma {:induction false} ReplaceNothing(a: string, c: char, sub: string)
    requires c !in a
    ensures ReplaceAll(a, c, sub) == a
  {
    if a != "" {
      ReplaceNothing(a[1..], c, sub);
    }
  }

  /** Replacing one more character in an encoding is encoding it as well. */
  lemma {:induction false} ReplaceExtends(s: string, special: set<char>, c: char)
    requires '%' in special && c !in special && special <= PROPERTY && c in PROPERTY
    ensures ReplaceAll(Encode(s, special), c, Code(c)) == Encode(s, special + {c})
  {
    if s != "" {
      var head := if s[0] in special then Code(s[0]) else [s[0]];
      ReplaceConcat(head, Encode(s[1..], special), c, Code(c));
      ReplaceExtends(s[1..], special, c);
      if s[0] == c {
        assert head[1..] == "";
        assert ReplaceAll(head, c, Code(c)) == Code(c) + "";
      } else {
        assert c !in head;
        ReplaceNothing(head, c, Code(c));
      }
    }
  }

  lemma {:induction false} FirstReplacement(s: string)
    ensures ReplaceAll(s, '%', "%25") == Encode(s, {'%'})
  {
    if s != "" {
      FirstReplacement(s[1..]);
    }
  }

  /** The replacements in sequence are one map of the characters. */
  lemma MessageIsOnePass(s: string)
    ensures ReplaceAll(ReplaceAll(ReplaceAll(s, '%', "%25"), '\r', "%0D"), '\n', "%0A") == Encode(s, MESSAGE)
  {
    FirstReplacement(s);
    ReplaceExtends(s, {'%'}, '\r');
    ReplaceExtends(s, {'%'} + {'\r'}, '\n');
    assert {'%'} + {'\r'} + {'\n'} == MESSAGE;
  }

  lemma PropertyIsOnePass(s: string)
    ensures ReplaceAll(ReplaceAll(Encode(s, MESSAGE), ':', "%3A"), ',', "%2C") == Encode(s, PROPERTY)
  {
    ReplaceExtends(s, MESSAGE, ':');
    ReplaceExtends(s, MESSAGE + {':'}, ',');
    assert MESSAGE + {':'} + {','} == PROPERTY;
  }

  lemma CodeDecodes(c: char, rest: string)
    requires c in PROPERTY
    ensures Decode(Code(c) + rest) == [c] + Decode(rest)
  {
    var s := Code(c) + rest;
    assert s[3..] == rest;
    assert s[1] == Code(c)[1] && s[2] == Code(c)[2];
  }

  /** Decoding gives back what was escaped, for both escapers. */
  lemma {:induction false} DecodeEncode(s: string, special: set<char>)
    requires '%' in special && special <= PROPERTY
    ensures Decode(Encode(s, special)) == s
  {
    if s != "" {
      var rest := Encode(s[1..], special);
      DecodeEncode(s[1..], special);
      assert s == [s[0]] + s[1..];
      if s[0] in special {
        CodeDecodes(s[0], rest);
      } else {
        assert ([s[0]] + rest)[1..] == rest;
      }
    }
  }

  /** No escaped character but '%' itself is left in the output. */
  lemma {:induction false} NothingSpecialLeft(s: string, special: set<char>, c: char)
    requires special <= PROPERTY && c in special && c != '%'
    ensures c !in Encode(s, special)
  {
    if s != "" {
      NothingSpecialLeft(s[1..], special, c);
      assert c !in (if s[0] in special then Code(s[0]) else [s[0]]);
    }
  }

  /**
   * Neither escaper can start a new command or end a property: the output has no CR or LF, for
   * properties no ':' or ',' either, and one decoder restores the input of both.
   */
  lemma AnnotationsAreSafe(s: string)
    ensures Decode(Encode(s, MESSAGE)) == s && '\r' !in Encode(s, MESSAGE) && '\n' !in Encode(s, MESSAGE)
    ensures Decode(Encode(s, PROPERTY)) == s && '\r' !in Encode(s, PROPERTY) && '\n' !in Encode(s, PROPERTY)
    ensures ':' !in Encode(s, PROPERTY) && ',' !in Encode(s, PROPERTY)
  {
    DecodeEncode(s, MESSAGE);
    DecodeEncode(s, PROPERTY);
    NothingSpecialLeft(s, MESSAGE, '\r');
    NothingSpecialLeft(s, MESSAGE, '\n');
    NothingSpecialLeft(s, PROPERTY, '\r');
    NothingSpecialLeft(s, PROPERTY, '\n');
    NothingSpecialLeft(s, PROPERTY, ':');
    NothingSpecialLeft(s, PROPERTY, ',');
  }

  // ---------------------------------------------------------------- Markdown

  predicate IsMeta(c: char) {
    || c == '\\' || c == '|' || c == '`' || c == '<' || c == '>' || c == '&'
    || c == '*' || c == '_' || c == '[' || c == ']' || c == '#' || c == '~'
  }

  /** The characters with a meaning in Markdown or HTML. */
  lemma MetaExactly(c: char)
    ensures IsMeta(c) <==> c in "\\|`<>&*_[]#~"
  {
    var all := "\\|`<>&*_[]#~";
    assert all[0] == '\\' && all[1] == '|' && all[2] == '`' && all[3] == '<' && all[4] == '>' && all[5] == '&';
    assert all[6] == '*' && all[7] == '_' && all[8] == '[' && all[9] == ']' && all[10] == '#' && all[11] == '~';
  }

  /** A backslash in front of every metacharacter. */
  function Escaped(s: string): string {
    if s == "" then ""
    else Escaped(s[..|s| - 1]) + (if IsMeta(s[|s| - 1]) then "\\" else "") + [s[|s| - 1]]
  }

  method MarkdownEscape(s: string) returns (b: string)
    ensures b == Escaped(s)
  {
    b := "";
    for i := 0 to |s|
      invariant b == Escaped(s[..i])
    {
      assert s[..i + 1][..i] == s[..i];
      if IsMeta(s[i]) {
        b := b + "\\";
      }
      b := b + [s[i]];
    }
    assert s[..|s|] == s;
  }

  /** Removes one level of backslashes. */
  function Unescape(s: string): string {
    if s == "" then ""
    else if s[0] == '\\' && |s| >= 2 then [s[1]] + Unescape(s[2..])
    else [s[0]] + Unescape(s[1..])
  }

  /** Every metacharacter stands behind a backslash that escapes it, and nothing else does. */
  predicate WellEscaped(s: string) {
    if s == "" then true
    else if s[0] == '\\' then |s| >= 2 && IsMeta(s[1]) && WellEscaped(s[2..])
    else !IsMeta(s[0]) && WellEscaped(s[1..])
  }

  /** One character as it is written. */
  function Mark(c: char): string {
    if IsMeta(c) then ['\\', c] else [c]
  }

  lemma EscapedConcat(a: string, c: char)
    ensures Escaped(a + [c]) == Escaped(a) + Mark(c)
  {
    assert (a + [c])[..|a|] == a;
  }

  lemma MarkAlone(c: char)
    ensures WellEscaped(Mark(c)) && Unescape(Mark(c)) == [c]
  {
    var e := Mark(c);
    assert e[1..] == (if IsMeta(c) then [c] else "");
    assert IsMeta(c) ==> e[2..] == "";
  }

  lemma BackslashCons(c: char, rest: string)
    ensures WellEscaped(['\\', c] + rest) <==> IsMeta(c) && WellEscaped(rest)
    ensures Unescape(['\\', c] + rest) == [c] + Unescape(rest)
  {
    assert (['\\', c] + rest)[2..] == rest;
  }

  lemma PlainCons(c: char, rest: string)
    requires c != '\\'
    ensures WellEscaped([c] + rest) <==> !IsMeta(c) && WellEscaped(rest)
    ensures Unescape([c] + rest) == [c] + Unescape(rest)
  {
    assert ([c] + rest)[1..] == rest;
  }

  /** Text after well escaped text keeps what both say. */
  predicate Joins(a: string, e: string) {
    WellEscaped(a + e) && Unescape(a + e) == Unescape(a) + Unescape(e)
  }

  lemma JoinsBackslash(c: char, rest: string, e: string)
    requires IsMeta(c) && Joins(rest, e)
    ensures Joins(['\\', c] + rest, e)
  {
    assert (['\\', c] + rest) + e == ['\\', c] + (rest + e);
    BackslashCons(c, rest);
    BackslashCons(c, rest + e);
  }

  lemma JoinsPlain(c: char, rest: string, e: string)
    requires c != '\\' && !IsMeta(c) && Joins(rest, e)
    ensures Joins([c] + rest, e)
  {
    assert ([c] + rest) + e == [c] + (rest + e);
    PlainCons(c, rest);
    PlainCons(c, rest + e);
  }

  lemma {:induction false} WellEscapedAppend(a: string, e: string)
    requires WellEscaped(a) && WellEscaped(e)
    ensures Joins(a, e)
    decreases |a|
  {
    if a == "" {
      assert a + e == e;
    } else if a[0] == '\\' {
      assert a == ['\\', a[1]] + a[2..];
      WellEscapedAppend(a[2..], e);
      JoinsBackslash(a[1], a[2..], e);
    } else {
      assert a == [a[0]] + a[1..];
      WellEscapedAppend(a[1..], e);
      JoinsPlain(a[0], a[1..], e);
    }
  }

  /** Every metacharacter is escaped, and removing the escapes restores the value. */
  lemma {:induction false} MarkdownRoundTrip(s: string)
    ensures WellEscaped(Escaped(s)) && Unescape(Escaped(s)) == s
  {
    if s != "" {
      var k := |s| - 1;
      MarkdownRoundTrip(s[..k]);
      assert s == s[..k] + [s[k]];
      EscapedConcat(s[..k], s[k]);
      MarkAlone(s[k]);
      WellEscapedAppend(Escaped(s[..k]), Mark(s[k]));
    }
  }
}
