/** Printing and splitting dotted configuration paths (src/edgewarn_cli/configure.py). */
module ConfigPath {
  import opened Wrappers

  // ---------- printing ----------

  /** `str.replace` of one character. */
  function ReplaceChar(s: string, c: char, to: string): string {
    if s == "" then "" else (if s[0] == c then to else [s[0]]) + ReplaceChar(s[1..], c, to)
  }

  function EscapeSegment(s: string): string {
    ReplaceChar(ReplaceChar(s, '\\', "\\\\"), '.', "\\.")
  }

  function Format(segments: seq<string>): string {
    if segments == [] then ""
    else if |segments| == 1 then EscapeSegment(segments[0])
    else EscapeSegment(segments[0]) + "." + Format(segments[1..])
  }

  // ---------- splitting ----------

  /** The scanner from the state (segments, current, escaped); `None` is a rejected path. */
  function SplitFrom(text: string, segments: seq<string>, current: string, escaped: bool): Option<seq<string>>
    decreases |text|
  {
    if text == "" then
      if escaped || current == "" then None else Some(segments + [current])
    else if escaped then
      if text[0] !in ".\\" then None else SplitFrom(text[1..], segments, current + [text[0]], false)
    else if text[0] == '\\' then SplitFrom(text[1..], segments, current, true)
    else if text[0] == '.' then
      if current == "" then None else SplitFrom(text[1..], segments + [current], "", false)
    else SplitFrom(text[1..], segments, current + [text[0]], false)
  }

  function Split(text: string): Option<seq<string>> {
    SplitFrom(text, [], "", false)
  }

  method SplitEscapedPath(text: string) returns (r: Option<seq<string>>)
    ensures r == Split(text)
  {
    var segments: seq<string> := [];
    var current := "";
    var escaped := false;
    var k := 0;
    while k < |text|
      invariant 0 <= k <= |text|
      invariant Split(text) == SplitFrom(text[k..], segments, current, escaped)
    {
      var c := text[k];
      assert text[k..][0] == c && text[k..][1..] == text[k + 1..];
      if escaped {
        if c !in ".\\" {
          return None;
        }
        current := current + [c];
        escaped := false;
      } else if c == '\\' {
        escaped := true;
      } else if c == '.' {
        if current == "" {
          return None;
        }
        segments := segments + [current];
        current := "";
      } else {
        current := current + [c];
      }
      k := k + 1;
    }
    if escaped || current == "" {
      return None;
    }
    return Some(segments + [current]);
  }

  // ---------- mutual inverses ----------

  predicate NoneEmpty(segments: seq<string>) {
    forall i :: 0 <= i < |segments| ==> segments[i] != ""
  }

  function EscapeChar(c: char): string {
    if c == '\\' || c == '.' then ['\\', c] else [c]
  }

  lemma {:induction false} ReplaceConcat(a: string, b: string, c: char, to: string)
    ensures ReplaceChar(a + b, c, to) == ReplaceChar(a, c, to) + ReplaceChar(b, c, to)
  {
    if a == "" {
      assert a + b == b;
    } else {
      assert (a + b)[1..] == a[1..] + b;
      ReplaceConcat(a[1..], b, c, to);
    }
  }

  /** The two passes escape each character on its own. */
  lemma EscapeCons(s: string)
    requires s != ""
    ensures EscapeSegment(s) == EscapeChar(s[0]) + EscapeSegment(s[1..])
  {
    var first := if s[0] == '\\' then "\\\\" else [s[0]];
    ReplaceConcat(first, ReplaceChar(s[1..], '\\', "\\\\"), '.', "\\.");
    if s[0] == '\\' {
      assert first[1..] == ['\\'] && first[1..][1..] == "";
      assert ReplaceChar(first, '.', "\\.") == ['\\'] + (['\\'] + "");
    } else {
      assert first[1..] == "";
    }
  }

  lemma {:induction false} SplitEscapedChar(c: char, rest: string, segments: seq<string>, current: string)
    ensures SplitFrom(EscapeChar(c) + rest, segments, current, false) == SplitFrom(rest, segments, current + [c], false)
  {
    var text := EscapeChar(c) + rest;
    if c == '\\' || c == '.' {
      assert text[0] == '\\' && text[1..] == [c] + rest;
      assert ([c] + rest)[1..] == rest;
    } else {
      assert text[0] == c && text[1..] == rest;
    }
  }

  lemma {:induction false} SplitEscaped(s: string, rest: string, segments: seq<string>, current: string)
    ensures SplitFrom(EscapeSegment(s) + rest, segments, current, false)
        == SplitFrom(rest, segments, current + s, false)
    decreases |s|
  {
    if s == "" {
      assert EscapeSegment(s) + rest == rest && current + s == current;
    } else {
      var tail := EscapeSegment(s[1..]) + rest;
      assert EscapeSegment(s) + rest == EscapeChar(s[0]) + tail by {
        EscapeCons(s);
        Associative(EscapeChar(s[0]), EscapeSegment(s[1..]), rest);
      }
      SplitEscapedChar(s[0], tail, segments, current);
      SplitEscaped(s[1..], rest, segments, current + [s[0]]);
      assert (current + [s[0]]) + s[1..] == current + s;
    }
  }

  lemma Associative(a: string, b: string, c: string)
    ensures (a + b) + c == a + (b + c)
  {
  }

  lemma {:induction false} SplitFormatFrom(segments: seq<string>, done: seq<string>)
    requires segments != [] && NoneEmpty(segments)
    ensures SplitFrom(Format(segments), done, "", false) == Some(done + segments)
    decreases |segments|
  {
    var s := segments[0];
    assert "" + s == s;
    if |segments| == 1 {
      SplitEscaped(s, "", done, "");
      assert Format(segments) + "" == Format(segments) && EscapeSegment(s) + "" == EscapeSegment(s);
      assert [s] == segments;
    } else {
      var rest := "." + Format(segments[1..]);
      assert Format(segments) == EscapeSegment(s) + rest;
      SplitEscaped(s, rest, done, "");
      assert rest[1..] == Format(segments[1..]);
      SplitFormatFrom(segments[1..], done + [s]);
      assert (done + [s]) + segments[1..] == done + segments;
    }
  }

  /** What has been read so far, printed back. */
  function Printed(segments: seq<string>): string
    decreases |segments|
  {
    if segments == [] then "" else EscapeSegment(segments[0]) + "." + Printed(segments[1..])
  }

  lemma {:induction false} PrintedAppend(segments: seq<string>, s: string)
    ensures Printed(segments + [s]) == Printed(segments) + EscapeSegment(s) + "."
    ensures Format(segments + [s]) == Printed(segments) + EscapeSegment(s)
    decreases |segments|
  {
    var all := segments + [s];
    if segments == [] {
      assert all == [s] && all[1..] == [];
    } else {
      assert all[1..] == segments[1..] + [s];
      PrintedAppend(segments[1..], s);
    }
  }

  lemma {:induction false} EscapeAppend(s: string, c: char)
    ensures EscapeSegment(s + [c]) == EscapeSegment(s) + EscapeChar(c)
    decreases |s|
  {
    if s == "" {
      assert s + [c] == [c] && [c][1..] == "";
      EscapeCons([c]);
    } else {
      assert (s + [c])[1..] == s[1..] + [c] && (s + [c])[0] == s[0];
      EscapeCons(s + [c]);
      EscapeCons(s);
      EscapeAppend(s[1..], c);
    }
  }

  /** The prefix of the text that has brought the scanner to this state. */
  function Consumed(segments: seq<string>, current: string, escaped: bool): string {
    Printed(segments) + EscapeSegment(current) + (if escaped then "\\" else "")
  }

  /** Each accepted character extends the consumed prefix by itself. */
  lemma ConsumedStep(segments: seq<string>, current: string, c: char)
    ensures c in ".\\" ==> Consumed(segments, current + [c], false) == Consumed(segments, current, true) + [c]
    ensures c !in ".\\" ==> Consumed(segments, current + [c], false) == Consumed(segments, current, false) + [c]
    ensures Consumed(segments, current, true) == Consumed(segments, current, false) + "\\"
    ensures Consumed(segments + [current], "", false) == Consumed(segments, current, false) + "."
  {
    var p, e := Printed(segments), EscapeSegment(current);
    EscapeAppend(current, c);
    PrintedAppend(segments, current);
    Associative(p, e, EscapeChar(c));
    Associative(p + e, "\\", [c]);
    assert EscapeSegment("") == "";
    assert p + e + "" == p + e;
  }

  lemma {:induction false} FormatSplitFrom(text: string, segments: seq<string>, current: string, escaped: bool)
    requires SplitFrom(text, segments, current, escaped).Some?
    requires NoneEmpty(segments)
    ensures Format(SplitFrom(text, segments, current, escaped).value) == Consumed(segments, current, escaped) + text
    ensures SplitFrom(text, segments, current, escaped).value != []
    ensures NoneEmpty(SplitFrom(text, segments, current, escaped).value)
    decreases |text|
  {
    if text == "" {
      PrintedAppend(segments, current);
      assert Consumed(segments, current, false) + "" == Printed(segments) + EscapeSegment(current);
    } else {
      ConsumedStep(segments, current, text[0]);
      Associative(Consumed(segments, current, escaped), [text[0]], text[1..]);
      assert text == [text[0]] + text[1..];
      if escaped || (text[0] != '\\' && text[0] != '.') {
        FormatSplitFrom(text[1..], segments, current + [text[0]], false);
      } else if text[0] == '\\' {
        FormatSplitFrom(text[1..], segments, current, true);
      } else {
        FormatSplitFrom(text[1..], segments + [current], "", false);
      }
    }
  }

  /** Every accepted text is the printing of its segments, which are never empty. */
  lemma FormatSplit(text: string)
    requires Split(text).Some?
    ensures Format(Split(text).value) == text
    ensures Split(text).value != [] && NoneEmpty(Split(text).value)
  {
    FormatSplitFrom(text, [], "", false);
    assert Consumed([], "", false) == "";
  }

  /** A path survives printing and splitting exactly when it is non-empty and so is each segment. */
  lemma {:induction false} SplitFormat(segments: seq<string>)
    ensures Split(Format(segments)) == Some(segments) <==>
              segments != [] && NoneEmpty(segments)
  {
    if segments != [] && NoneEmpty(segments) {
      SplitFormatFrom(segments, []);
      assert [] + segments == segments;
    } else if Split(Format(segments)).Some? {
      FormatSplit(Format(segments));
    }
  }

  // ---------- the target of an edit ----------

  datatype Target = Target(name: string, segments: seq<string>)

  predicate HasAt(text: string, pattern: string, k: nat) {
    k + |pattern| <= |text| && text[k..k + |pattern|] == pattern
  }

  /** Text that the command line takes for a file name with its extension. */
  predicate MentionsExtension(text: string) {
    (exists k: nat | k < |text| :: HasAt(text, ".yaml.", k))
    || (|text| >= 5 && HasAt(text, ".yaml", |text| - 5))
  }

  /** `parse_dotted_target`; `None` is a rejected target. */
  function ParseTarget(text: string, names: set<string>): Option<Target> {
    if text == "" || MentionsExtension(text) then None
    else
      match Split(text)
      case None => None
      case Some(parts) =>
        if parts == [] || parts[0] !in names || |parts| == 1 then None
        else Some(Target(parts[0], parts[1..]))
  }

  /** The command line reaches the leaf at `segments` of catalog `name` exactly when it is not the root, no segment is
      empty, and the printed target does not look like a file name. */
  lemma {:induction false} TargetRoundTrip(name: string, segments: seq<string>, names: set<string>)
    requires name in names
    ensures ParseTarget(Format([name] + segments), names) == Some(Target(name, segments)) <==>
              name != "" && segments != [] && NoneEmpty(segments) && !MentionsExtension(Format([name] + segments))
  {
    var parts := [name] + segments;
    SplitFormat(parts);
    assert parts[1..] == segments;
    if ParseTarget(Format(parts), names) == Some(Target(name, segments)) {
      var out := Split(Format(parts)).value;
      assert out == [out[0]] + out[1..] == parts;
    }
    if name != "" && NoneEmpty(segments) {
      assert NoneEmpty(parts);
      if segments != [] {
        assert Format(parts) == EscapeSegment(name) + "." + Format(segments);
      }
    }
    if NoneEmpty(parts) {
      assert parts[0] == name && forall i :: 0 <= i < |segments| ==> segments[i] == parts[i + 1];
    }
  }

  /** A text is a target exactly when it is the print of a known catalog's name and of a path below its root, with no
      empty segment, and does not look like a file name. */
  lemma TargetExact(text: string, names: set<string>, t: Target)
    ensures ParseTarget(text, names) == Some(t) <==>
              && text == Format([t.name] + t.segments) && !MentionsExtension(text)
              && t.name in names && t.name != "" && t.segments != [] && NoneEmpty(t.segments)
  {
    if ParseTarget(text, names) == Some(t) {
      FormatSplit(text);
      var parts := Split(text).value;
      assert parts == [t.name] + t.segments;
      forall i | 0 <= i < |t.segments| ensures t.segments[i] != "" {
        assert t.segments[i] == parts[i + 1];
      }
    } else if t.name in names && text == Format([t.name] + t.segments) {
      TargetRoundTrip(t.name, t.segments, names);
    }
  }

  lemma EscapeExtension(stem: string)
    ensures EscapeSegment(stem + ".yaml") == EscapeSegment(stem) + "\\.yaml"
  {
    var e := EscapeSegment(stem);
    EscapeAppend(stem, '.');
    EscapeAppend(stem + ".", 'y');
    EscapeAppend(stem + ".y", 'a');
    EscapeAppend(stem + ".ya", 'm');
    EscapeAppend(stem + ".yam", 'l');
    assert stem + "." + "y" == stem + ".y" && stem + ".y" + "a" == stem + ".ya";
    assert stem + ".ya" + "m" == stem + ".yam" && stem + ".yam" + "l" == stem + ".yaml";
    assert EscapeSegment(stem + ".yaml") == e + "\\." + "y" + "a" + "m" + "l";
  }

  /** A key that itself ends in the extension cannot be addressed from the command line, although its path prints and
      splits faithfully and the tree view, which passes segments and not text, can edit it. */
  lemma {:induction false} ExtensionKeyIsUnreachable(parents: seq<string>, stem: string, names: set<string>)
    ensures ParseTarget(Format(parents + [stem + ".yaml"]), names) == None
    ensures NoneEmpty(parents) ==>
              Split(Format(parents + [stem + ".yaml"])) == Some(parents + [stem + ".yaml"])
  {
    SplitFormat(parents + [stem + ".yaml"]);
    PrintedAppend(parents, stem + ".yaml");
    EscapeExtension(stem);
    var text := Format(parents + [stem + ".yaml"]);
    assert text[|text| - 5..] == ".yaml";
    assert HasAt(text, ".yaml", |text| - 5);
  }
}
