/**
 * The pure helpers of the node-view code generator: how a view class and
 * its file are named, which base class and colour a node category gets,
 * and how text is escaped for a C# string literal.
 */
module CodeGen {
  import opened Wrappers
  import Text

  /** The view class of node type `typeName`: the custom name when one is given (non-empty), else the type name plus "View". */
  function ViewClassName(typeName: string, custom: Option<string>): (r: string)
    ensures custom.Some? && custom.value != "" ==> r == custom.value
    ensures custom.None? || custom.value == "" ==> r == typeName + "View" && |r| == |typeName| + 4
  {
    if custom.Some? && custom.value != "" then custom.value else typeName + "View"
  }

  const GeneratedFilePrefix := "Generated_"

  /** The generated file's name: the prefix, the view class name, ".cs". */
  function FileName(viewClassName: string): (r: string)
    ensures |r| == |viewClassName| + 13
    ensures Text.StartsWith(r, GeneratedFilePrefix)
    ensures r[10..|r| - 3] == viewClassName && r[|r| - 3..] == ".cs"
  {
    GeneratedFilePrefix + viewClassName + ".cs"
  }

  /** The file name gives back the view class name, so distinct views get distinct files. */
  lemma FileNameInjective(a: string, b: string)
    ensures FileName(a) == FileName(b) ==> a == b
  {
    if FileName(a) == FileName(b) {
      assert a == FileName(a)[10..|FileName(a)| - 3];
    }
  }

  /**
   * The base view class of a category: the first of "Composite",
   * "Decorator", "Condition" the category contains decides; otherwise an
   * action view.
   */
  function GetBaseClassForCategory(category: string): (r: string)
    ensures r == "CompositeNodeView" <==> Text.Contains(category, "Composite")
    ensures r == "DecoratorNodeView" <==> !Text.Contains(category, "Composite") && Text.Contains(category, "Decorator")
    ensures r == "ConditionNodeView" <==>
      (!Text.Contains(category, "Composite") && !Text.Contains(category, "Decorator") && Text.Contains(category, "Condition"))
    ensures r == "ActionNodeView" <==>
      (!Text.Contains(category, "Composite") && !Text.Contains(category, "Decorator") && !Text.Contains(category, "Condition"))
  {
    if Text.Contains(category, "Composite") then "CompositeNodeView"
    else if Text.Contains(category, "Decorator") then "DecoratorNodeView"
    else if Text.Contains(category, "Condition") then "ConditionNodeView"
    else "ActionNodeView"
  }

  /** The header colour of a category, as C# source text, decided in the same order. */
  function GetColorForCategory(category: string): (r: string)
    ensures Text.Contains(category, "Composite") ==> r == "new Color(0.2f, 0.4f, 0.6f)"
    ensures !Text.Contains(category, "Composite") && Text.Contains(category, "Decorator") ==> r == "new Color(0.4f, 0.4f, 0.2f)"
    ensures !Text.Contains(category, "Composite") && !Text.Contains(category, "Decorator") && Text.Contains(category, "Condition") ==>
      r == "new Color(0.5f, 0.3f, 0.5f)"
    ensures !Text.Contains(category, "Composite") && !Text.Contains(category, "Decorator") && !Text.Contains(category, "Condition") ==>
      r == "new Color(0.2f, 0.5f, 0.2f)"
  {
    if Text.Contains(category, "Composite") then "new Color(0.2f, 0.4f, 0.6f)"
    else if Text.Contains(category, "Decorator") then "new Color(0.4f, 0.4f, 0.2f)"
    else if Text.Contains(category, "Condition") then "new Color(0.5f, 0.3f, 0.5f)"
    else "new Color(0.2f, 0.5f, 0.2f)"
  }

  /** Colour and base class follow one priority order: categories with the same base class get the same colour, and different base classes different colours. */
  lemma ColorFollowsBaseClass(c1: string, c2: string)
    ensures GetBaseClassForCategory(c1) == GetBaseClassForCategory(c2) <==> GetColorForCategory(c1) == GetColorForCategory(c2)
  {
  }

  // ---- EscapeString ----

  /** `s.Replace(c, rep)` for a one-character pattern: each `c` becomes `rep`. */
  function ReplaceChar(s: string, c: char, rep: string): (r: string)
    ensures c !in s ==> r == s
    decreases |s|
  {
    if s == [] then [] else (if s[0] == c then rep else [s[0]]) + ReplaceChar(s[1..], c, rep)
  }

  /** The general `Replace` with a one-character pattern is `ReplaceChar`. */
  lemma {:induction false} ReplaceOneChar(s: string, c: char, rep: string)
    ensures Text.Replace(s, [c], rep) == ReplaceChar(s, c, rep)
    decreases |s|
  {
    if s != [] {
      ReplaceOneChar(s[1..], c, rep);
      if s[0] == c {
        assert Text.StartsWith(s, [c]);
      } else {
        assert !Text.StartsWith(s, [c]);
      }
    }
  }

  lemma {:induction false} ReplaceCharAppend(a: string, b: string, c: char, rep: string)
    ensures ReplaceChar(a + b, c, rep) == ReplaceChar(a, c, rep) + ReplaceChar(b, c, rep)
    decreases |a|
  {
    if a != [] {
      assert (a + b)[0] == a[0] && (a + b)[1..] == a[1..] + b;
      ReplaceCharAppend(a[1..], b, c, rep);
      assert ReplaceChar(a + b, c, rep) == (if a[0] == c then rep else [a[0]]) + ReplaceChar(a[1..] + b, c, rep);
    } else {
      assert a + b == b;
    }
  }

  /**
   * `EscapeString`: `null` stays `null`; otherwise backslashes are doubled
   * first, then quotes and newlines are escaped.
   */
  function EscapeString(s: Option<string>): (r: Option<string>)
    ensures s.None? <==> r.None?
    ensures r.Some? ==> forall i :: 0 <= i < |r.value| ==> r.value[i] != '\n'
    ensures r.Some? ==> Unescape(r.value) == s.value
  {
    match s
    case None => None
    case Some(x) =>
      var e := ReplaceChar(ReplaceChar(ReplaceChar(x, '\\', "\\\\"), '"', "\\\""), '\n', "\\n");
      EscapeIsPerChar(x);
      UnescapeEscape(x);
      NoRawNewline(x);
      Some(e)
  }

  /** The escape is the source's three chained `Replace` calls on the whole string. */
  lemma EscapeStringIsChainedReplace(x: string)
    ensures EscapeString(Some(x)) == Some(Text.Replace(Text.Replace(Text.Replace(x, "\\", "\\\\"), "\"", "\\\""), "\n", "\\n"))
  {
    var a := Text.Replace(x, "\\", "\\\\");
    ReplaceOneChar(x, '\\', "\\\\");
    var b := Text.Replace(a, "\"", "\\\"");
    ReplaceOneChar(a, '"', "\\\"");
    ReplaceOneChar(b, '\n', "\\n");
  }

  /** The escape of one character. */
  function EscapeChar(c: char): (r: string)
    ensures |r| >= 1 && (r[0] == '\\' <==> (c == '\\' || c == '"' || c == '\n'))
  {
    if c == '\\' then "\\\\" else if c == '"' then "\\\"" else if c == '\n' then "\\n" else [c]
  }

  /** Each character escaped on its own, in order. */
  function EscapeEach(s: string): (r: string)
    decreases |s|
  {
    if s == [] then [] else EscapeChar(s[0]) + EscapeEach(s[1..])
  }

  /** The three replacements in a row escape each character on its own. */
  lemma {:induction false} EscapeIsPerChar(s: string)
    ensures ReplaceChar(ReplaceChar(ReplaceChar(s, '\\', "\\\\"), '"', "\\\""), '\n', "\\n") == EscapeEach(s)
    decreases |s|
  {
    if s != [] {
      EscapeIsPerChar(s[1..]);
      var a := ReplaceChar(s[1..], '\\', "\\\\");
      var b := ReplaceChar(a, '"', "\\\"");
      var h1 := if s[0] == '\\' then "\\\\" else [s[0]];
      assert ReplaceChar(s, '\\', "\\\\") == h1 + a;
      ReplaceCharAppend(h1, a, '"', "\\\"");
      var h2 := ReplaceChar(h1, '"', "\\\"");
      ReplaceCharAppend(h2, b, '\n', "\\n");
      var h3 := ReplaceChar(h2, '\n', "\\n");
      assert h3 == EscapeChar(s[0]);
    }
  }

  /** C#'s reading of the escapes the generator writes: `\\`, `\"` and `\n`. */
  function Unescape(t: string): (r: string)
    decreases |t|
  {
    if t == [] then []
    else if t[0] == '\\' && |t| >= 2 then [if t[1] == 'n' then '\n' else t[1]] + Unescape(t[2..])
    else [t[0]] + Unescape(t[1..])
  }

  /** Reading the escaped text gives back the original. */
  lemma {:induction false} UnescapeEscape(s: string)
    ensures Unescape(EscapeEach(s)) == s
    decreases |s|
  {
    if s != [] {
      UnescapeEscape(s[1..]);
      var e := EscapeChar(s[0]);
      var t := e + EscapeEach(s[1..]);
      if e[0] == '\\' {
        assert t[2..] == EscapeEach(s[1..]);
      } else {
        assert t[1..] == EscapeEach(s[1..]);
      }
      assert [s[0]] + s[1..] == s;
    }
  }

  /** No raw newline survives escaping. */
  lemma {:induction false} NoRawNewline(s: string)
    ensures forall i :: 0 <= i < |EscapeEach(s)| ==> EscapeEach(s)[i] != '\n'
    decreases |s|
  {
    if s != [] {
      NoRawNewline(s[1..]);
      var e := EscapeChar(s[0]);
      forall i | 0 <= i < |EscapeEach(s)| ensures EscapeEach(s)[i] != '\n' {
        if i >= |e| {
          assert EscapeEach(s)[i] == EscapeEach(s[1..])[i - |e|];
        }
      }
    }
  }

  // ---- Line terminators in a C# string literal ----

  /** The characters C# takes as a line break, none of which a regular string literal may hold raw. */
  predicate IsNewLineChar(c: char) {
    c == '\n' || c == '\r' || c == '\U{0085}' || c == '\U{2028}' || c == '\U{2029}'
  }

  /** Text that can stand between the quotes of a C# regular string literal as far as line breaks go. */
  predicate LiteralSafe(t: string) {
    forall i :: 0 <= i < |t| ==> !IsNewLineChar(t[i])
  }

  /**
   * `EscapeString` as written escapes only `\n`: a carriage return passes
   * through raw, and the `new Label("...")` line it is pasted into does not
   * compile.
   */
  lemma EscapeStringKeepsCarriageReturn()
    ensures EscapeString(Some("a\rb")) == Some("a\rb")
    ensures !LiteralSafe(EscapeString(Some("a\rb")).value)
  {
  }

  /** The escape of one character, covering every line terminator. */
  function EscapeLiteralChar(c: char): (r: string)
    ensures |r| >= 1 && (r[0] == '\\' <==> (c == '\\' || c == '"' || IsNewLineChar(c)))
    ensures LiteralSafe(r)
  {
    if c == '\\' then "\\\\"
    else if c == '"' then "\\\""
    else if c == '\n' then "\\n"
    else if c == '\r' then "\\r"
    else if c == '\U{0085}' then "\\u0085"
    else if c == '\U{2028}' then "\\u2028"
    else if c == '\U{2029}' then "\\u2029"
    else [c]
  }

  /** Each character escaped on its own with `EscapeLiteralChar`, in order. */
  function EscapeLiteralEach(s: string): (r: string)
    decreases |s|
  {
    if s == [] then [] else EscapeLiteralChar(s[0]) + EscapeLiteralEach(s[1..])
  }

  /** The value of a hexadecimal digit. */
  function HexDigit(c: char): (r: Option<nat>)
    ensures r.Some? ==> r.value < 16
  {
    if '0' <= c <= '9' then Some(c as nat - '0' as nat)
    else if 'a' <= c <= 'f' then Some(c as nat - 'a' as nat + 10)
    else if 'A' <= c <= 'F' then Some(c as nat - 'A' as nat + 10)
    else None
  }

  /** The value of four hexadecimal digits, as C#'s `\uXXXX` reads them. */
  function Hex4(t: string): (r: Option<nat>)
    requires |t| == 4
    ensures r.Some? ==> r.value < 0x1_0000
  {
    var a, b, c, d := HexDigit(t[0]), HexDigit(t[1]), HexDigit(t[2]), HexDigit(t[3]);
    if a.Some? && b.Some? && c.Some? && d.Some? then
      Some(((a.value * 16 + b.value) * 16 + c.value) * 16 + d.value)
    else None
  }

  /**
   * C#'s reading of the escapes `EscapeLiteralChar` writes: `\n`, `\r`, a
   * `\uXXXX` naming a non-surrogate code point, and a backslash before any
   * other character standing for that character.
   */
  function UnescapeLiteral(t: string): (r: string)
    decreases |t|
  {
    if t == [] then []
    else if t[0] == '\\' && |t| >= 6 && t[1] == 'u' && Hex4(t[2..6]).Some?
            && !(0xD800 <= Hex4(t[2..6]).value < 0xE000) then
      [Hex4(t[2..6]).value as char] + UnescapeLiteral(t[6..])
    else if t[0] == '\\' && |t| >= 2 then
      [if t[1] == 'n' then '\n' else if t[1] == 'r' then '\r' else t[1]] + UnescapeLiteral(t[2..])
    else [t[0]] + UnescapeLiteral(t[1..])
  }

  /** Reading one escaped character and then the rest. */
  lemma UnescapeLiteralChar(c: char, rest: string)
    ensures UnescapeLiteral(EscapeLiteralChar(c) + rest) == [c] + UnescapeLiteral(rest)
  {
    var e := EscapeLiteralChar(c);
    var t := e + rest;
    if |e| == 6 {
      assert t[2..6] == e[2..6];
      assert t[6..] == rest;
    } else if |e| == 2 {
      assert t[1] == e[1] && t[2..] == rest;
    } else {
      assert t[1..] == rest;
    }
  }

  /** Reading the escaped text gives back the original. */
  lemma {:induction false} UnescapeLiteralEscape(s: string)
    ensures UnescapeLiteral(EscapeLiteralEach(s)) == s
    decreases |s|
  {
    if s != [] {
      UnescapeLiteralEscape(s[1..]);
      UnescapeLiteralChar(s[0], EscapeLiteralEach(s[1..]));
      assert [s[0]] + s[1..] == s;
    }
  }

  /** No line terminator survives `EscapeLiteralEach`. */
  lemma {:induction false} EscapeLiteralSafe(s: string)
    ensures LiteralSafe(EscapeLiteralEach(s))
    decreases |s|
  {
    if s != [] {
      EscapeLiteralSafe(s[1..]);
      var e := EscapeLiteralChar(s[0]);
      forall i | 0 <= i < |EscapeLiteralEach(s)| ensures !IsNewLineChar(EscapeLiteralEach(s)[i]) {
        if i >= |e| {
          assert EscapeLiteralEach(s)[i] == EscapeLiteralEach(s[1..])[i - |e|];
        }
      }
    }
  }

  /**
   * The escape `EscapeString` evidently intends: `null` stays `null`, the
   * result holds no line terminator at all, and C# reads it back as the
   * original.
   */
  function EscapeLiteral(s: Option<string>): (r: Option<string>)
    ensures s.None? <==> r.None?
    ensures r.Some? ==> LiteralSafe(r.value)
    ensures r.Some? ==> UnescapeLiteral(r.value) == s.value
  {
    match s
    case None => None
    case Some(x) =>
      EscapeLiteralSafe(x);
      UnescapeLiteralEscape(x);
      Some(EscapeLiteralEach(x))
  }

  /** On text whose only line terminator is `\n`, the corrected escape writes what `EscapeString` writes. */
  lemma {:induction false} EscapeLiteralAgrees(x: string)
    requires forall i :: 0 <= i < |x| ==> IsNewLineChar(x[i]) ==> x[i] == '\n'
    ensures EscapeLiteral(Some(x)) == EscapeString(Some(x))
  {
    EscapeIsPerChar(x);
    EachAgrees(x);
  }

  lemma {:induction false} EachAgrees(x: string)
    requires forall i :: 0 <= i < |x| ==> IsNewLineChar(x[i]) ==> x[i] == '\n'
    ensures EscapeLiteralEach(x) == EscapeEach(x)
    decreases |x|
  {
    if x != [] {
      assert forall i :: 0 <= i < |x[1..]| ==> x[1..][i] == x[i + 1];
      EachAgrees(x[1..]);
      assert EscapeLiteralChar(x[0]) == EscapeChar(x[0]);
    }
  }
}
