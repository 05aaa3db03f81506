/**
 JSON Pointer segments (sections 3 and 4 of RFC 6901): the left-to-right decoder of
 src/EdgeWARN/ctam/transaction.py and the replace-based one of src/EdgeWARN/ctam/manifest.py.
 */
module Pointer {
  import opened Wrappers

  // ---------- splitting and joining ----------

  function Split(s: string, c: char): (r: seq<string>)
    ensures |r| >= 1
    ensures forall i :: 0 <= i < |r| ==> c !in r[i]
  {
    if s == "" then [""]
    else
      var rest := Split(s[1..], c);
      if s[0] == c then [""] + rest else [[s[0]] + rest[0]] + rest[1..]
  }

  function Join(segments: seq<string>, c: char): string {
    if segments == [] then ""
    else if |segments| == 1 then segments[0]
    else segments[0] + [c] + Join(segments[1..], c)
  }

  lemma {:induction false} SplitPrefix(head: string, tail: string, c: char)
    requires c !in head
    ensures Split(head + [c] + tail, c) == [head] + Split(tail, c)
  {
    var s := head + [c] + tail;
    if head == "" {
      assert s == [c] + tail;
      assert s[1..] == tail;
    } else {
      assert s[1..] == head[1..] + [c] + tail;
      SplitPrefix(head[1..], tail, c);
      assert [s[0]] + head[1..] == head;
    }
  }

  lemma {:induction false} SplitWhole(s: string, c: char)
    requires c !in s
    ensures Split(s, c) == [s]
  {
    if s != "" {
      SplitWhole(s[1..], c);
      assert [s[0]] + s[1..] == s;
    }
  }

  /** Splitting inverts joining on segments that do not hold the separator. */
  lemma {:induction false} SplitJoin(segments: seq<string>, c: char)
    requires segments != [] && forall i :: 0 <= i < |segments| ==> c !in segments[i]
    ensures Split(Join(segments, c), c) == segments
  {
    if |segments| == 1 {
      SplitWhole(segments[0], c);
    } else {
      SplitPrefix(segments[0], Join(segments[1..], c), c);
      SplitJoin(segments[1..], c);
    }
  }

  lemma {:induction false} JoinSplit(s: string, c: char)
    ensures Join(Split(s, c), c) == s
  {
    if s != "" {
      JoinSplit(s[1..], c);
      var rest := Split(s[1..], c);
      if s[0] == c {
        assert ([""] + rest)[1..] == rest;
      } else {
        assert ([[s[0]] + rest[0]] + rest[1..])[1..] == rest[1..];
      }
    }
  }

  // ---------- the two decoders ----------

  /** The transaction gate: one scan from left to right. */
  function Scan(segment: string): Option<string> {
    if segment == "" then Some("")
    else if segment[0] != '~' then
      match Scan(segment[1..])
      case None => None
      case Some(rest) => Some([segment[0]] + rest)
    else if |segment| < 2 || segment[1] !in "01" then None
    else
      match Scan(segment[2..])
      case None => None
      case Some(rest) => Some([if segment[1] == '0' then '~' else '/'] + rest)
  }

  /** `str.replace` of a two-character pattern: leftmost, non-overlapping. */
  function ReplacePair(s: string, first: char, second: char, into: char): string {
    if |s| < 2 then s
    else if s[0] == first && s[1] == second then [into] + ReplacePair(s[2..], first, second, into)
    else [s[0]] + ReplacePair(s[1..], first, second, into)
  }

  predicate WellEscaped(s: string) {
    if s == "" then true
    else if s[0] != '~' then WellEscaped(s[1..])
    else |s| >= 2 && s[1] in "01" && WellEscaped(s[2..])
  }

  /** The manifest parser: reject a lone `~`, then replace `~1`, then `~0`. */
  function Unescape(segment: string): Option<string> {
    if WellEscaped(segment)
    then Some(ReplacePair(ReplacePair(segment, '~', '1', '/'), '~', '0', '~'))
    else None
  }

  /** The wrong order: `~0` first. */
  function UnescapeZeroFirst(segment: string): string {
    ReplacePair(ReplacePair(segment, '~', '0', '~'), '~', '1', '/')
  }

  /** Section 3 of RFC 6901. */
  function Escape(value: string): string {
    if value == "" then ""
    else (if value[0] == '~' then "~0" else if value[0] == '/' then "~1" else [value[0]]) + Escape(value[1..])
  }

  /** The host's two decoders accept the same segments and read the same key from each. */
  lemma {:induction false} DecodersAgree(s: string)
    ensures Scan(s) == Unescape(s)
  {
    if s == "" {
    } else if s[0] != '~' {
      DecodersAgree(s[1..]);
      ReplaceKeepsHead(s, '1', '/');
      ReplaceKeepsHead(ReplacePair(s, '~', '1', '/'), '0', '~');
    } else if |s| >= 2 && s[1] in "01" {
      DecodersAgree(s[2..]);
      var inner := ReplacePair(s[2..], '~', '1', '/');
      if s[1] == '1' {
        assert ReplacePair(s, '~', '1', '/') == ['/'] + inner;
        ReplaceKeepsHead(['/'] + inner, '0', '~');
      } else {
        ReplaceKeepsHead(s[1..], '1', '/');
        assert s[1..][1..] == s[2..];
        assert ReplacePair(s, '~', '1', '/') == ['~', '0'] + inner;
        assert (['~', '0'] + inner)[2..] == inner;
      }
    }
  }

  lemma {:induction false} ReplaceKeepsHead(s: string, second: char, into: char)
    requires s != "" && s[0] != '~'
    ensures ReplacePair(s, '~', second, into) == [s[0]] + ReplacePair(s[1..], '~', second, into)
  {}

  /** Decoding inverts section 3 escaping. */
  lemma {:induction false} ScanEscape(value: string)
    ensures Scan(Escape(value)) == Some(value)
  {
    if value != "" {
      ScanEscape(value[1..]);
      var e := Escape(value);
      assert e[if value[0] in "~/" then 2 else 1..] == Escape(value[1..]);
      assert [value[0]] + value[1..] == value;
    }
  }

  /** And escaping inverts decoding, on segments of a split pointer. */
  lemma {:induction false} EscapeScan(segment: string)
    requires Scan(segment).Some? && '/' !in segment
    ensures Escape(Scan(segment).value) == segment
  {
    if segment != "" {
      if segment[0] != '~' {
        EscapeScan(segment[1..]);
      } else {
        EscapeScan(segment[2..]);
        assert segment == segment[..2] + segment[2..];
      }
    }
  }

  ghost predicate HasTildeOne(value: string) {
    exists i :: 0 <= i < |value| - 1 && value[i] == '~' && value[i + 1] == '1'
  }

  function SlashOnly(value: string): string {
    if value == "" then ""
    else (if value[0] == '/' then "~1" else [value[0]]) + SlashOnly(value[1..])
  }

  lemma {:induction false} ZeroFirstLeavesSlashes(value: string)
    ensures ReplacePair(Escape(value), '~', '0', '~') == SlashOnly(value)
  {
    if value != "" {
      ZeroFirstLeavesSlashes(value[1..]);
      var e, rest := Escape(value), Escape(value[1..]);
      if value[0] == '~' {
        assert e[2..] == rest;
      } else if value[0] == '/' {
        assert e[1..] == ['1'] + rest;
        ReplaceKeepsHead(['1'] + rest, '0', '~');
        assert (['1'] + rest)[1..] == rest;
      } else {
        assert e[1..] == rest;
        ReplaceKeepsHead(e, '0', '~');
      }
    }
  }

  lemma {:induction false} OneAfterSlashOnly(value: string)
    ensures ReplacePair(SlashOnly(value), '~', '1', '/') == value <==> !HasTildeOne(value)
  {
    if value != "" {
      OneAfterSlashOnly(value[1..]);
      var s, rest := SlashOnly(value), SlashOnly(value[1..]);
      if HasTildeOne(value[1..]) {
        var i :| 0 <= i < |value[1..]| - 1 && value[1..][i] == '~' && value[1..][i + 1] == '1';
        assert value[i + 1] == '~' && value[i + 2] == '1';
      }
      forall i | 1 <= i < |value| - 1 && value[i] == '~' && value[i + 1] == '1'
        ensures HasTildeOne(value[1..])
      {
        assert value[1..][i - 1] == '~' && value[1..][i] == '1';
      }
      if value[0] == '/' {
        assert s[2..] == rest;
      } else if value[0] == '~' && |value| > 1 && value[1] == '1' {
        assert value[1..][0] == '1' && rest[0] == '1';
        assert s == ['~'] + rest && s[1] == '1';
        assert ReplacePair(s, '~', '1', '/')[0] == '/';
        assert value[0] == '~' && value[0 + 1] == '1';
      } else {
        assert s[1..] == rest;
        assert |rest| > 0 && rest[0] == '1' ==> value[1..][0] == '1';
        assert ReplacePair(s, '~', '1', '/') == [s[0]] + ReplacePair(rest, '~', '1', '/');
        assert value == [value[0]] + value[1..];
        assert HasTildeOne(value) <==> HasTildeOne(value[1..]);
      }
    }
  }

  /** Replacing `~0` first is wrong exactly on keys that hold `~1`, whose escape holds `~01`. */
  lemma {:induction false} ZeroFirstIsWrong(value: string)
    ensures UnescapeZeroFirst(Escape(value)) == value <==> !HasTildeOne(value)
  {
    ZeroFirstLeavesSlashes(value);
    OneAfterSlashOnly(value);
  }

  // ---------- the loops ----------

  function Prepend(prefix: string, rest: Option<string>): Option<string> {
    match rest
    case None => None
    case Some(r) => Some(prefix + r)
  }

  lemma PrependNothing(rest: Option<string>)
    ensures Prepend("", rest) == rest
  {
    if rest.Some? {
      assert "" + rest.value == rest.value;
    }
  }

  lemma PrependTwice(a: string, b: string, rest: Option<string>)
    ensures Prepend(a, Prepend(b, rest)) == Prepend(a + b, rest)
    ensures a + "" == a
  {
    if rest.Some? {
      assert a + (b + rest.value) == (a + b) + rest.value;
    }
  }

  method DecodeSegment(segment: string) returns (decoded: Option<string>)
    ensures decoded == Scan(segment)
  {
    var index := 0;
    var value := "";
    assert segment[0..] == segment;
    PrependNothing(Scan(segment));
    while index < |segment|
      invariant 0 <= index <= |segment|
      invariant Scan(segment) == Prepend(value, Scan(segment[index..]))
    {
      ghost var rest := segment[index..];
      if segment[index] != '~' {
        assert segment[index + 1..] == rest[1..];
        PrependTwice(value, [segment[index]], Scan(rest[1..]));
        value := value + [segment[index]];
        index := index + 1;
      } else {
        if index + 1 >= |segment| || segment[index + 1] !in "01" {
          return None;
        }
        assert segment[index + 2..] == rest[2..];
        var character := if segment[index + 1] == '0' then '~' else '/';
        PrependTwice(value, [character], Scan(rest[2..]));
        value := value + [character];
        index := index + 2;
      }
    }
    assert segment[index..] == "";
    PrependTwice(value, "", Some(""));
    return Some(value);
  }

  /** `str.find("~", index)`; -1 when there is none. */
  method FindTilde(s: string, from: nat) returns (index: int)
    requires from <= |s|
    ensures index == -1 ==> '~' !in s[from..]
    ensures index != -1 ==> from <= index < |s| && s[index] == '~' && '~' !in s[from..index]
  {
    index := from;
    while index < |s|
      invariant from <= index <= |s|
      invariant '~' !in s[from..index]
    {
      if s[index] == '~' {
        return;
      }
      index := index + 1;
    }
    index := -1;
  }

  lemma {:induction false} WellEscapedSkip(s: string, k: nat)
    requires k <= |s| && '~' !in s[..k]
    ensures WellEscaped(s) == WellEscaped(s[k..])
  {
    if k > 0 {
      assert s[0] in s[..k];
      assert s[1..][..k - 1] == s[..k][1..] && s[1..][k - 1..] == s[k..];
      WellEscapedSkip(s[1..], k - 1);
    }
  }

  method UnescapeSegment(segment: string) returns (decoded: Option<string>)
    ensures decoded == Unescape(segment)
  {
    var index := 0;
    while true
      invariant 0 <= index <= |segment|
      invariant WellEscaped(segment) == WellEscaped(segment[index..])
      decreases |segment| - index
    {
      var next := FindTilde(segment, index);
      ghost var rest := segment[index..];
      if next == -1 {
        WellEscapedSkip(rest, |rest|);
        break;
      }
      assert rest[..next - index] == segment[index..next] && rest[next - index..] == segment[next..];
      WellEscapedSkip(rest, next - index);
      if next + 1 >= |segment| || segment[next + 1] !in "01" {
        return None;
      }
      assert segment[next..][2..] == segment[next + 2..];
      index := next + 2;
    }
    return Some(ReplacePair(ReplacePair(segment, '~', '1', '/'), '~', '0', '~'));
  }
}
