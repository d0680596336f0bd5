/** Text on its way through a form: what a browser makes of the value of an input
    element, and what strings.TrimSpace makes of what it posts. */
module FormText {

  // ----- Trimming -----

  /** Unicode White_Space, which strings.TrimSpace cuts. */
  predicate IsSpace(c: char) {
    var n := c as int;
    9 <= n <= 13 || n == 32 || n == 0x85 || n == 0xA0 || n == 0x1680 || 0x2000 <= n <= 0x200A
    || n == 0x2028 || n == 0x2029 || n == 0x202F || n == 0x205F || n == 0x3000
  }

  function TrimSpace(s: string): (r: string)
    ensures |r| <= |s|
  {
    if s == "" then ""
    else if IsSpace(s[0]) then TrimSpace(s[1..])
    else if IsSpace(s[|s| - 1]) then TrimSpace(s[..|s| - 1])
    else s
  }

  /** Text that starts and ends with a letter is trimmed. */
  lemma LettersStay(s: string)
    requires s != "" && 97 <= s[0] as int <= 122 && 97 <= s[|s| - 1] as int <= 122
    ensures TrimSpace(s) == s
  {
  }

  predicate AllSpace(s: string) {
    forall i :: 0 <= i < |s| ==> IsSpace(s[i])
  }

  predicate SpaceAround(s: string, before: string, inside: string, after: string) {
    s == before + inside + after && AllSpace(before) && AllSpace(after)
  }

  lemma MoreBefore(c: char, s: string, before: string, inside: string, after: string)
    requires IsSpace(c) && SpaceAround(s, before, inside, after)
    ensures SpaceAround([c] + s, [c] + before, inside, after)
  {
  }

  lemma MoreAfter(c: char, s: string, before: string, inside: string, after: string)
    requires IsSpace(c) && SpaceAround(s, before, inside, after)
    ensures SpaceAround(s + [c], before, inside, after + [c])
  {
  }

  lemma {:induction false} TrimmedEnds(s: string)
    ensures TrimSpace(s) != "" ==> !IsSpace(TrimSpace(s)[0]) && !IsSpace(TrimSpace(s)[|TrimSpace(s)| - 1])
    decreases |s|
  {
    if s != "" {
      if IsSpace(s[0]) {
        TrimmedEnds(s[1..]);
      } else if IsSpace(s[|s| - 1]) {
        TrimmedEnds(s[..|s| - 1]);
      }
    }
  }

  /** s without its first or its last character, where that is a space. */
  predicate CutsOne(s: string, t: string) {
    s != "" && ((IsSpace(s[0]) && s == [s[0]] + t) || (IsSpace(s[|s| - 1]) && s == t + [s[|s| - 1]]))
  }

  /** One cut after another, until none is left. */
  lemma TrimSpaceCutsOne(s: string)
    ensures var t := if s == "" then "" else if IsSpace(s[0]) then s[1..] else s[..|s| - 1];
            TrimSpace(s) == s || (CutsOne(s, t) && |t| < |s| && TrimSpace(s) == TrimSpace(t))
  {
    if s != "" {
      assert s == [s[0]] + s[1..] && s == s[..|s| - 1] + [s[|s| - 1]];
    }
  }

  lemma OneMoreAround(s: string, t: string, before: string, inside: string, after: string)
    requires CutsOne(s, t) && SpaceAround(t, before, inside, after)
    ensures SpaceAround(s, [s[0]] + before, inside, after) || SpaceAround(s, before, inside, after + [s[|s| - 1]])
  {
    if IsSpace(s[0]) && s == [s[0]] + t {
      MoreBefore(s[0], t, before, inside, after);
    } else {
      MoreAfter(s[|s| - 1], t, before, inside, after);
    }
  }

  ghost predicate CutFrom(s: string, inside: string) {
    exists before, after :: SpaceAround(s, before, inside, after)
  }

  /** Trimming cuts spaces off both ends and nothing else. */
  lemma {:induction false} TrimSpaceCutsBothEnds(s: string)
    ensures CutFrom(s, TrimSpace(s))
    ensures TrimSpace(s) != "" ==> !IsSpace(TrimSpace(s)[0]) && !IsSpace(TrimSpace(s)[|TrimSpace(s)| - 1])
    decreases |s|
  {
    TrimmedEnds(s);
    TrimSpaceCutsOne(s);
    if TrimSpace(s) == s {
      assert SpaceAround(s, "", s, "");
    } else {
      var t := if IsSpace(s[0]) then s[1..] else s[..|s| - 1];
      TrimSpaceCutsBothEnds(t);
      var before, after :| SpaceAround(t, before, TrimSpace(t), after);
      OneMoreAround(s, t, before, TrimSpace(t), after);
    }
  }

  lemma {:induction false} TrimmedIsTrimmed(s: string)
    ensures TrimSpace(TrimSpace(s)) == TrimSpace(s)
    decreases |s|
  {
    if s != "" {
      if IsSpace(s[0]) {
        TrimmedIsTrimmed(s[1..]);
      } else if IsSpace(s[|s| - 1]) {
        TrimmedIsTrimmed(s[..|s| - 1]);
      }
    }
  }

  lemma {:induction false} TrimmedIsInside(s: string, c: char)
    requires c in TrimSpace(s)
    ensures c in s
    decreases |s|
  {
    if s != "" {
      if IsSpace(s[0]) {
        TrimmedIsInside(s[1..], c);
      } else if IsSpace(s[|s| - 1]) {
        TrimmedIsInside(s[..|s| - 1], c);
      }
    }
  }

  // ----- A text input -----

  predicate IsBreak(c: char) {
    c == '\r' || c == '\n'
  }

  predicate OnOneLine(s: string) {
    '\r' !in s && '\n' !in s
  }

  /** What an input of type text holds of its value: everything but line breaks. */
  function OneLine(s: string): (r: string)
    ensures |r| <= |s|
  {
    if s == "" then "" else (if IsBreak(s[0]) then "" else [s[0]]) + OneLine(s[1..])
  }

  lemma {:induction false} OneLineKeepsExactly(s: string)
    ensures OnOneLine(OneLine(s))
    ensures |OneLine(s)| == |s| <==> OnOneLine(s)
    ensures OnOneLine(s) ==> OneLine(s) == s
  {
    if s != "" {
      OneLineKeepsExactly(s[1..]);
      assert s == [s[0]] + s[1..];
    }
  }

  /** Posted from a text input and trimmed, a text is kept exactly when it is
      trimmed and has no line break. */
  lemma TextInputKeepsExactly(s: string)
    ensures TrimSpace(OneLine(s)) == s <==> OnOneLine(s) && TrimSpace(s) == s
  {
    OneLineKeepsExactly(s);
  }

  // ----- A hidden input -----

  /** The parser reads CR LF, and CR alone, as LF. */
  function Parsed(s: string): string {
    if s == "" then ""
    else if s[0] == '\r' then "\n" + Parsed(if |s| > 1 && s[1] == '\n' then s[2..] else s[1..])
    else [s[0]] + Parsed(s[1..])
  }

  /** A form the browser submits by itself sends each LF as CR LF. */
  function Wired(s: string): string {
    if s == "" then "" else (if s[0] == '\n' then "\r\n" else [s[0]]) + Wired(s[1..])
  }

  /** A form is submitted by the browser, or by htmx, which encodes values as they
      are. */
  datatype Sender = Browser | Htmx

  function HiddenField(s: string, sender: Sender): string {
    if sender.Browser? then Wired(Parsed(s)) else Parsed(s)
  }

  /** Every line break is CR LF. */
  predicate BreaksAreCrLf(s: string) {
    s == "" ||
    if s[0] == '\r' then |s| > 1 && s[1] == '\n' && BreaksAreCrLf(s[2..])
    else s[0] != '\n' && BreaksAreCrLf(s[1..])
  }

  lemma {:induction false} WiredKeepsExactly(s: string)
    ensures Wired(Parsed(s)) == s <==> BreaksAreCrLf(s)
    decreases |s|
  {
    if s != "" {
      if s[0] == '\r' {
        var rest := if |s| > 1 && s[1] == '\n' then s[2..] else s[1..];
        WiredKeepsExactly(rest);
        WiredJoins("\n", Parsed(rest));
        assert Wired(Parsed(s)) == "\r\n" + Wired(Parsed(rest));
        if |s| > 1 && s[1] == '\n' {
          assert s == "\r\n" + rest;
          assert Wired(Parsed(s))[2..] == Wired(Parsed(rest));
        } else {
          assert Wired(Parsed(s))[1] == '\n';
        }
      } else {
        WiredKeepsExactly(s[1..]);
        WiredJoins([s[0]], Parsed(s[1..]));
        assert s == [s[0]] + s[1..];
        if s[0] == '\n' {
          assert Wired(Parsed(s))[0] == '\r';
        } else {
          assert Wired(Parsed(s)) == [s[0]] + Wired(Parsed(s[1..]));
          assert Wired(Parsed(s))[1..] == Wired(Parsed(s[1..]));
        }
      }
    }
  }

  lemma WiredJoins(a: string, b: string)
    requires |a| == 1
    ensures Wired(a + b) == (if a[0] == '\n' then "\r\n" else a) + Wired(b)
  {
    assert (a + b)[1..] == b;
  }

  lemma {:induction false} ParsedKeepsExactly(s: string)
    ensures '\r' !in Parsed(s) && (Parsed(s) == s <==> '\r' !in s)
    decreases |s|
  {
    if s != "" {
      assert s == [s[0]] + s[1..];
      if s[0] == '\r' {
        ParsedKeepsExactly(if |s| > 1 && s[1] == '\n' then s[2..] else s[1..]);
      } else {
        ParsedKeepsExactly(s[1..]);
        assert Parsed(s)[1..] == Parsed(s[1..]);
      }
    }
  }

  /** Whether a hidden field comes back as it was. */
  predicate Survives(s: string, sender: Sender) {
    if sender.Browser? then BreaksAreCrLf(s) else '\r' !in s
  }

  lemma HiddenFieldKeepsExactly(s: string, sender: Sender)
    ensures HiddenField(s, sender) == s <==> Survives(s, sender)
    ensures HiddenField(s, sender) == "" <==> s == ""
  {
    WiredKeepsExactly(s);
    ParsedKeepsExactly(s);
  }
}
