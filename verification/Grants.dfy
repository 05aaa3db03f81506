/** Which paths the gate opens for a manifest's grants
    (src/EdgeWARN/ctam/transaction.py, src/EdgeWARN/ctam/manifest.py). */
module Grants {
  import opened Wrappers
  import opened Pointer
  import opened Gate

  // ---------- paths and their segments ----------

  function EscapeAll(segments: seq<string>): (r: seq<string>)
    ensures |r| == |segments| && forall i :: 0 <= i < |r| ==> r[i] == Escape(segments[i])
  {
    seq(|segments|, i requires 0 <= i < |segments| => Escape(segments[i]))
  }

  /** The one pointer that addresses a list of decoded segments. */
  function PathOf(segments: seq<string>): string {
    "/" + Join(EscapeAll(segments), '/')
  }

  lemma {:induction false} EscapeShape(key: string)
    ensures '/' !in Escape(key) && (Escape(key) == "" <==> key == "")
  {
    if key != "" {
      EscapeShape(key[1..]);
    }
  }

  lemma {:induction false} DecodeAllExact(raw: seq<string>, decoded: seq<string>)
    requires |raw| == |decoded| && forall i :: 0 <= i < |raw| ==> Scan(raw[i]) == Some(decoded[i])
    ensures DecodeAll(raw) == Some(decoded)
  {
    if raw != [] {
      DecodeAllExact(raw[1..], decoded[1..]);
      assert decoded == [decoded[0]] + decoded[1..];
    }
  }

  /** A pointer decodes to given segments exactly when it is their escaped path: escaping and decoding are inverse on
      whole pointers, and no segment is empty. */
  lemma PathExact(pointer: string, segments: seq<string>)
    ensures Segments(Some(pointer)) == Success(segments) <==>
              segments != [] && "" !in segments && pointer == PathOf(segments)
  {
    if segments != [] && "" !in segments {
      var raw, path := EscapeAll(segments), PathOf(segments);
      forall i | 0 <= i < |raw| ensures '/' !in raw[i] && raw[i] != "" && Scan(raw[i]) == Some(segments[i]) {
        assert segments[i] in segments;
        EscapeShape(segments[i]);
        ScanEscape(segments[i]);
      }
      SplitJoin(raw, '/');
      assert path[1..] == Join(raw, '/');
      JoinNonEmpty(raw);
      DecodeAllExact(raw, segments);
    }
    if Segments(Some(pointer)) == Success(segments) {
      var raw := Split(pointer[1..], '/');
      DecodeAllLength(raw);
      JoinSplit(pointer[1..], '/');
      forall i | 0 <= i < |raw| ensures Escape(segments[i]) == raw[i] && segments[i] != "" {
        EscapeScan(raw[i]);
        EscapeShape(segments[i]);
        assert raw[i] in raw;
      }
      assert EscapeAll(segments) == raw;
      assert pointer == "/" + pointer[1..];
    }
  }

  lemma {:induction false} JoinNonEmpty(raw: seq<string>)
    requires raw != [] && raw[0] != ""
    ensures Join(raw, '/') != ""
  {
  }

  // ---------- what a text spells ----------

  /** Every segment split in turn. */
  function SplitEach(segments: seq<string>): seq<string> {
    if segments == [] then [] else Split(segments[0], '/') + SplitEach(segments[1..])
  }

  lemma {:induction false} SplitConcat(a: string, b: string)
    ensures Split(a + "/" + b, '/') == Split(a, '/') + Split(b, '/')
  {
    if a == "" {
      assert (a + "/" + b)[1..] == b;
    } else {
      var s := a + "/" + b;
      assert s[1..] == a[1..] + "/" + b;
      SplitConcat(a[1..], b);
      var tail := Split(a[1..], '/');
      if a[0] == '/' {
        assert ([""] + tail) + Split(b, '/') == [""] + (tail + Split(b, '/'));
      } else {
        assert ([[a[0]] + tail[0]] + tail[1..]) + Split(b, '/') == [[a[0]] + tail[0]] + (tail + Split(b, '/'))[1..];
      }
    }
  }

  lemma {:induction false} SplitOfJoin(segments: seq<string>)
    requires segments != []
    ensures Split(Join(segments, '/'), '/') == SplitEach(segments)
  {
    if |segments| == 1 {
      assert segments[1..] == [] && SplitEach(segments[1..]) == [];
      assert Split(segments[0], '/') + [] == Split(segments[0], '/');
    } else {
      SplitConcat(segments[0], Join(segments[1..], '/'));
      SplitOfJoin(segments[1..]);
    }
  }

  /** A text is the join of exactly those segment lists that split into the same parts; a decoded key may hold several
      parts, so that one text stands for several lists. */
  lemma {:induction false} JoinExact(segments: seq<string>, text: string)
    requires segments != []
    ensures Join(segments, '/') == text <==> SplitEach(segments) == Split(text, '/')
  {
    SplitOfJoin(segments);
    if SplitEach(segments) == Split(text, '/') {
      JoinSplit(Join(segments, '/'), '/');
      JoinSplit(text, '/');
    }
  }

  // ---------- the gate, exactly ----------

  /** What the gate asks of decoded segments, apart from a declaration. */
  predicate GateAccepts(manifest: Manifest, segments: seq<string>) {
    && |segments| >= 2
    && if segments[0] == "modules" then
         && segments[1] == manifest.name && FoldCase(segments[1]) !in RESERVED_MODULE_KEYS
         && forall i :: 2 <= i < |segments| ==> segments[i] !in {".", "..", "~"}
       else
         && segments[0] == "properties" && |segments| == 2
         && HasModulePrefix(manifest, segments[1]) && DeclaredProperty(manifest, segments[1])
  }

  /** The part of a grant's text that names a place in the entry. */
  function GrantText(write: Write): string
    requires ResourcePrefix(write.resource) <= write.pointer
  {
    write.pointer[|ResourcePrefix(write.resource)|..]
  }

  predicate Spells(write: Write, resource: Resource, segments: seq<string>) {
    && write.resource == resource && ResourcePrefix(resource) <= write.pointer
    && SplitEach(segments) == Split(GrantText(write), '/')
  }

  lemma GateAcceptsExact(manifest: Manifest, pointer: Option<string>)
    ensures ValidatePatchPath(manifest, pointer).Success? <==>
              Segments(pointer).Success? && GateAccepts(manifest, Segments(pointer).value)
    ensures ValidatePatchPath(manifest, pointer).Success? ==> ValidatePatchPath(manifest, pointer) == Segments(pointer)
  {
  }

  lemma DeclaredExact(manifest: Manifest, resource: Resource, segments: seq<string>)
    requires segments != []
    ensures DeclaresWrite(manifest, resource, segments) <==>
              exists k :: 0 <= k < |manifest.writes| && Spells(manifest.writes[k], resource, segments)
  {
    var prefix, text := ResourcePrefix(resource), Join(segments, '/');
    forall k | 0 <= k < |manifest.writes|
      ensures manifest.writes[k] == Write(resource, prefix + text) <==> Spells(manifest.writes[k], resource, segments)
    {
      var write := manifest.writes[k];
      if write.resource == resource && prefix <= write.pointer {
        assert write.pointer == prefix + GrantText(write);
        assert GrantText(write) == text <==> write.pointer == prefix + text by {
          assert (prefix + text)[|prefix|..] == text;
        }
        JoinExact(segments, GrantText(write));
      }
    }
    if DeclaresWrite(manifest, resource, segments) {
      var k :| 0 <= k < |manifest.writes| && manifest.writes[k] == Write(resource, prefix + text);
      assert Spells(manifest.writes[k], resource, segments);
    }
  }

  /** The gate admits a pointer exactly when it is the path of segments that the gate accepts and that some grant for
      the resource spells. */
  lemma AdmitExact(manifest: Manifest, resource: Resource, pointer: string, segments: seq<string>)
    ensures Admit(manifest, resource, Some(pointer)) == Success(segments) <==>
              && pointer == PathOf(segments) && "" !in segments && GateAccepts(manifest, segments)
              && exists k :: 0 <= k < |manifest.writes| && Spells(manifest.writes[k], resource, segments)
  {
    PathExact(pointer, segments);
    GateAcceptsExact(manifest, Some(pointer));
    if segments != [] {
      DeclaredExact(manifest, resource, segments);
    }
  }

  // ---------- a grant and the key it names ----------

  lemma {:induction false} ScanShrinks(s: string)
    requires Scan(s).Some?
    ensures |Scan(s).value| <= |s|
    ensures '~' in s ==> |Scan(s).value| < |s|
    ensures '~' !in s ==> Scan(s).value == s
  {
    if s != "" {
      assert s == [s[0]] + s[1..];
      ScanShrinks(if s[0] == '~' then s[2..] else s[1..]);
    }
  }

  lemma {:induction false} JoinShrinks(short: seq<string>, long: seq<string>)
    requires |short| == |long| && forall i :: 0 <= i < |long| ==> |short[i]| <= |long[i]|
    ensures |Join(short, '/')| <= |Join(long, '/')|
    ensures (exists i :: 0 <= i < |long| && |short[i]| < |long[i]|) ==> |Join(short, '/')| < |Join(long, '/')|
  {
    if |long| > 1 {
      JoinShrinks(short[1..], long[1..]);
      if i: int :| 0 < i < |long| && |short[i]| < |long[i]| {
        assert |short[1..][i - 1]| < |long[1..][i - 1]|;
      }
    }
  }

  predicate HoldsTilde(raw: seq<string>) {
    exists i :: 0 <= i < |raw| && '~' in raw[i]
  }

  /** A grant's text is the join of the segments it decodes to if and only if it holds no escape. */
  lemma {:induction false} GrantNamesItself(text: string)
    requires DecodeAll(Split(text, '/')).Some?
    ensures Join(DecodeAll(Split(text, '/')).value, '/') == text <==> !HoldsTilde(Split(text, '/'))
  {
    var raw := Split(text, '/');
    var decoded := DecodeAll(raw).value;
    DecodeAllLength(raw);
    JoinSplit(text, '/');
    forall i | 0 <= i < |raw|
      ensures |decoded[i]| <= |raw[i]| && ('~' in raw[i] ==> |decoded[i]| < |raw[i]|)
      ensures '~' !in raw[i] ==> decoded[i] == raw[i]
    {
      ScanShrinks(raw[i]);
    }
    if HoldsTilde(raw) {
      JoinShrinks(decoded, raw);
    } else {
      assert decoded == raw;
    }
  }

  /** Of the segment lists without a `/` a grant spells exactly its own raw segments. */
  lemma {:induction false} GrantAuthorises(write: Write, segments: seq<string>)
    requires ResourcePrefix(write.resource) <= write.pointer && segments != []
    ensures Spells(write, write.resource, segments) <==>
              write.pointer == ResourcePrefix(write.resource) + Join(segments, '/')
    ensures (forall i :: 0 <= i < |segments| ==> '/' !in segments[i]) ==>
              (Spells(write, write.resource, segments) <==> segments == Split(GrantText(write), '/'))
  {
    var prefix, text := ResourcePrefix(write.resource), Join(segments, '/');
    assert write.pointer == prefix + GrantText(write);
    assert (prefix + text)[|prefix|..] == text;
    JoinExact(segments, GrantText(write));
    if forall i :: 0 <= i < |segments| ==> '/' !in segments[i] {
      SplitEachPlain(segments);
    }
  }

  lemma {:induction false} SplitEachPlain(segments: seq<string>)
    requires forall i :: 0 <= i < |segments| ==> '/' !in segments[i]
    ensures SplitEach(segments) == segments
  {
    if segments != [] {
      SplitWhole(segments[0], '/');
      SplitEachPlain(segments[1..]);
      assert segments == [segments[0]] + segments[1..];
    }
  }

  // ---------- every grant of every valid manifest ----------

  /** The decoded segments that manifest validation returns for grant `k`. */
  function Named(manifest: Manifest, k: nat): seq<string>
    requires k < |manifest.writes|
    requires ValidateWritePointer(manifest.writes[k], manifest.moduleId, manifest.name).Some?
  {
    ValidateWritePointer(manifest.writes[k], manifest.moduleId, manifest.name).value
  }

  lemma NamedShape(manifest: Manifest, k: nat)
    requires ValidManifest(manifest) && k < |manifest.writes|
    ensures var write, d := manifest.writes[k], Named(manifest, k);
            && ResourcePrefix(write.resource) <= write.pointer
            && DecodeAll(Split(GrantText(write), '/')) == Some(d)
            && Segments(Some("/" + GrantText(write))) == Success(d) && "" !in d
            && |d| >= 2 && (d[0] == "modules" || d[0] == "properties")
            && (d[0] == "modules" ==> d[1] == manifest.name)
  {
    var write := manifest.writes[k];
    assert ValidateWritePointer(write, manifest.moduleId, manifest.name).Some?;
    var text := GrantText(write);
    var raw := Split(text, '/');
    assert "" !in raw;
    assert text != "" by {
      assert Split("", '/')[0] == "";
    }
    assert ("/" + text)[1..] == text;
    PathExact("/" + text, Named(manifest, k));
  }

  /** Some grant of the manifest other than `k` is spelt like the decoded segments of grant `k`. */
  predicate SpeltByAnother(manifest: Manifest, k: nat, segments: seq<string>)
    requires k < |manifest.writes|
  {
    exists j :: 0 <= j < |manifest.writes| && j != k
        && Spells(manifest.writes[j], manifest.writes[k].resource, segments)
  }

  /**
   Manifest admission is wider than the gate.  A grant of a valid manifest opens the gate for its own pointer exactly
   when the gate accepts the place it names and its text holds no escape, or another grant happens to be spelt like the
   place it names.
   */
  lemma GrantOpensGate(manifest: Manifest, k: nat)
    requires ValidManifest(manifest) && k < |manifest.writes|
    ensures var write, d := manifest.writes[k], Named(manifest, k);
            && ResourcePrefix(write.resource) <= write.pointer
            && (Admit(manifest, write.resource, Some("/" + GrantText(write))).Success? <==>
                  && Usable(manifest, d)
                  && (!HoldsTilde(Split(GrantText(write), '/')) || SpeltByAnother(manifest, k, d)))
  {
    var write, d := manifest.writes[k], Named(manifest, k);
    NamedShape(manifest, k);
    var pointer := "/" + GrantText(write);
    PathExact(pointer, d);
    AdmitExact(manifest, write.resource, pointer, d);
    GrantNamesItself(GrantText(write));
    JoinExact(d, GrantText(write));
    assert Spells(write, write.resource, d) <==> !HoldsTilde(Split(GrantText(write), '/'));
    GateAcceptsExact(manifest, Some(pointer));
    UsableExact(manifest, d);
    if Spells(write, write.resource, d) {
      assert Spells(manifest.writes[k], write.resource, d);
    }
  }

  /** What a caller has to look at in the place that a valid grant names: no nested key that the gate reserves; for a
      property no nesting, the module's prefix, and the same text among the grants on current cells.  In particular the
      property named exactly like the module is never usable. */
  predicate Usable(manifest: Manifest, named: seq<string>) {
    if |named| >= 1 && named[0] == "modules" then forall i :: 2 <= i < |named| ==> named[i] !in {".", "..", "~"}
    else |named| == 2 && HasModulePrefix(manifest, named[1]) && DeclaredProperty(manifest, named[1])
  }

  lemma UsableExact(manifest: Manifest, d: seq<string>)
    requires FoldCase(manifest.name) !in RESERVED_MODULE_KEYS && |d| >= 2 && (d[0] == "modules" || d[0] == "properties")
    requires d[0] == "modules" ==> d[1] == manifest.name
    ensures GateAccepts(manifest, d) <==> Usable(manifest, d)
  {
  }

  /**
   A grant that holds an escape does not, by itself, authorise the place it names.  It authorises another place: the
   one whose decoded segments are its own text, whenever the gate accepts that one.
   */
  lemma EscapedGrantMissesItsKey(manifest: Manifest, k: nat)
    requires ValidManifest(manifest) && k < |manifest.writes|
    requires HoldsTilde(Split(manifest.writes[k].pointer[|ResourcePrefix(manifest.writes[k].resource)|..], '/'))
    ensures var write, d := manifest.writes[k], Named(manifest, k);
            var raw := Split(GrantText(write), '/');
            && raw != d
            && (Admit(manifest, write.resource, Some("/" + GrantText(write))).Success? ==>
                  SpeltByAnother(manifest, k, d))
            && (Admit(manifest, write.resource, Some(PathOf(raw))) == Success(raw) <==> GateAccepts(manifest, raw))
  {
    var write, d := manifest.writes[k], Named(manifest, k);
    var raw := Split(GrantText(write), '/');
    NamedShape(manifest, k);
    GrantOpensGate(manifest, k);
    GrantNamesItself(GrantText(write));
    JoinSplit(GrantText(write), '/');
    SplitEachPlain(raw);
    assert Spells(manifest.writes[k], write.resource, raw);
    AdmitExact(manifest, write.resource, PathOf(raw), raw);
  }

  // ---------- manifest validation, exactly ----------

  lemma {:induction false} ControlInSplit(text: string)
    ensures HasControl(text) <==> exists i :: 0 <= i < |Split(text, '/')| && HasControl(Split(text, '/')[i])
  {
    var raw := Split(text, '/');
    if text != "" {
      var rest := Split(text[1..], '/');
      ControlInSplit(text[1..]);
      assert HasControl(text) <==> text[0] < ' ' || HasControl(text[1..]) by {
        assert text == [text[0]] + text[1..];
        if i: int :| 0 <= i < |text[1..]| && text[1..][i] < ' ' {
          assert text[i + 1] < ' ';
        }
      }
      if text[0] == '/' {
        assert raw == [""] + rest;
        ControlPrepended("", rest);
      } else {
        ControlPrepended([text[0]] + rest[0], rest[1..]);
        ControlPrepended(rest[0], rest[1..]);
        assert raw == [[text[0]] + rest[0]] + rest[1..] && rest == [rest[0]] + rest[1..];
        assert HasControl([text[0]] + rest[0]) <==> text[0] < ' ' || HasControl(rest[0]) by {
          if i: int :| 0 <= i < |rest[0]| && rest[0][i] < ' ' {
            assert ([text[0]] + rest[0])[i + 1] < ' ';
          }
          assert ([text[0]] + rest[0])[0] == text[0];
        }
      }
    }
  }

  ghost predicate AnyControl(raw: seq<string>) {
    exists i :: 0 <= i < |raw| && HasControl(raw[i])
  }

  lemma ControlPrepended(first: string, rest: seq<string>)
    ensures AnyControl([first] + rest) <==> HasControl(first) || AnyControl(rest)
  {
    if i: int :| 0 <= i < |rest| && HasControl(rest[i]) {
      assert HasControl(([first] + rest)[i + 1]);
    }
    assert ([first] + rest)[0] == first;
  }

  /** Manifest validation accepts a grant exactly when, behind the prefix of its resource, it is the escaped path of a
      place: the module's own display name or a property named after it, neither of them the host's, and without control
      characters. */
  lemma ManifestAdmitsExact(write: Write, moduleId: string, name: string, place: seq<string>)
    ensures ValidateWritePointer(write, moduleId, name) == Some(place) <==>
              && ResourcePrefix(write.resource) <= write.pointer
              && "/" + GrantText(write) == PathOf(place) && "" !in place && !HasControl(GrantText(write))
              && |place| >= 2 && place[1] != "StormProb" && place[1] != "_grid_outputs"
              && (|| (place[0] == "modules" && place[1] == name)
                  || (place[0] == "properties" && (place[1] == moduleId || moduleId + "_" <= place[1])))
  {
    if ResourcePrefix(write.resource) <= write.pointer {
      TextAdmitsExact(GrantText(write), moduleId, name, place);
    }
  }

  lemma TextAdmitsExact(text: string, moduleId: string, name: string, place: seq<string>)
    ensures ValidateGrantSegments(Split(text, '/'), moduleId, name) == Some(place) <==>
              && "/" + text == PathOf(place) && "" !in place && !HasControl(text)
              && |place| >= 2 && place[1] != "StormProb" && place[1] != "_grid_outputs"
              && (|| (place[0] == "modules" && place[1] == name)
                  || (place[0] == "properties" && (place[1] == moduleId || moduleId + "_" <= place[1])))
  {
    ControlInSplit(text);
    TextDecodes(text, place);
  }

  lemma TextDecodes(text: string, place: seq<string>)
    ensures "" !in Split(text, '/') && DecodeAll(Split(text, '/')) == Some(place) <==>
              place != [] && "" !in place && "/" + text == PathOf(place)
  {
    PathExact("/" + text, place);
    assert ("/" + text)[1..] == text;
    assert text == "" ==> Split(text, '/')[0] == "";
  }

  /** Whatever a manifest declares, and however the name is spelt, no path under the host's own keys is admitted. */
  lemma HostKeysAreClosed(manifest: Manifest, resource: Resource, pointer: string, segments: seq<string>)
    requires Segments(Some(pointer)) == Success(segments) && |segments| >= 2 && segments[0] == "modules"
    requires FoldCase(segments[1]) == "stormprob" || FoldCase(segments[1]) == "_grid_outputs"
    ensures Admit(manifest, resource, Some(pointer)) == Failure(ForbiddenPath)
  {
  }

  // ---------- one grant, several keys ----------

  /** Segments `i` and `i + 1` as a single key that holds a `/`. */
  function Merged(segments: seq<string>, i: nat): (merged: seq<string>)
    requires i + 1 < |segments|
    ensures |merged| == |segments| - 1
  {
    segments[..i] + [segments[i] + "/" + segments[i + 1]] + segments[i + 2..]
  }

  lemma {:induction false} MergedSplitsAlike(segments: seq<string>, i: nat)
    requires i + 1 < |segments|
    ensures SplitEach(Merged(segments, i)) == SplitEach(segments)
    decreases i
  {
    var merged := Merged(segments, i);
    if i == 0 {
      assert merged[1..] == segments[2..] && segments[1..][1..] == segments[2..];
      SplitConcat(segments[0], segments[1]);
    } else {
      assert merged[1..] == Merged(segments[1..], i - 1);
      MergedSplitsAlike(segments[1..], i - 1);
    }
  }

  predicate IsNestedProperty(manifest: Manifest, raw: seq<string>) {
    |raw| == 3 && raw[0] == "properties" && HasModulePrefix(manifest, raw[1])
  }

  /**
   A grant of a valid manifest also spells every list that merges two neighbouring segments of its text into one key,
   and authorises it exactly where the path rules accept that.  They do when they accept the grant's own text and the
   merged segments lie below the module's name, and for a property grant on current cells with one nested key.
   */
  lemma GrantOpensMergedKey(manifest: Manifest, k: nat, i: nat)
    requires ValidManifest(manifest) && k < |manifest.writes|
    requires i + 1 < |Split(manifest.writes[k].pointer[|ResourcePrefix(manifest.writes[k].resource)|..], '/')|
    ensures var write := manifest.writes[k];
            var raw := Split(GrantText(write), '/');
            var merged := Merged(raw, i);
            && merged != raw
            && (Admit(manifest, write.resource, Some(PathOf(merged))) == Success(merged) <==>
                  GateAccepts(manifest, merged))
            && (GateAccepts(manifest, raw) && i >= 2 ==> GateAccepts(manifest, merged))
            && (write.resource.CurrentCells? && IsNestedProperty(manifest, raw) && i == 1 ==>
                  GateAccepts(manifest, merged))
  {
    var write := manifest.writes[k];
    NamedShape(manifest, k);
    var raw := Split(GrantText(write), '/');
    var merged := Merged(raw, i);
    assert "" !in raw by {
      assert ValidateWritePointer(write, manifest.moduleId, manifest.name).Some?;
    }
    assert "" !in merged by {
      forall j | 0 <= j < |merged| ensures merged[j] != "" {
        assert merged[j] == if j < i then raw[j] else if j == i then raw[i] + "/" + raw[i + 1] else raw[j + 1];
      }
    }
    MergedSplitsAlike(raw, i);
    RawSplitsAlike(GrantText(write));
    assert Spells(manifest.writes[k], write.resource, merged);
    AdmitExact(manifest, write.resource, PathOf(merged), merged);
    if GateAccepts(manifest, raw) && i >= 2 {
      MergedBelowName(manifest, raw, i);
    }
    if write.resource.CurrentCells? && IsNestedProperty(manifest, raw) && i == 1 {
      JoinSplit(GrantText(write), '/');
      MergedProperty(manifest, k, raw);
    }
  }

  /** The parts of a text hold no separator, so that splitting them again changes nothing. */
  lemma {:induction false} RawSplitsAlike(text: string)
    ensures SplitEach(Split(text, '/')) == Split(text, '/')
  {
    JoinSplit(text, '/');
    SplitEachPlain(Split(text, '/'));
  }

  lemma MergedBelowName(manifest: Manifest, raw: seq<string>, i: nat)
    requires GateAccepts(manifest, raw) && 2 <= i && i + 1 < |raw| && "" !in raw
    ensures GateAccepts(manifest, Merged(raw, i))
  {
    var merged := Merged(raw, i);
    assert raw[0] == "modules" && merged[0] == raw[0] && merged[1] == raw[1];
    forall j | 2 <= j < |merged| ensures merged[j] !in {".", "..", "~"} {
      assert raw[i] in raw && raw[i + 1] in raw;
      if j == i {
        SlashedKey(raw[i], raw[i + 1]);
      } else {
        assert merged[j] == if j < i then raw[j] else raw[j + 1];
      }
    }
  }

  lemma {:induction false} MergedProperty(manifest: Manifest, k: nat, raw: seq<string>)
    requires k < |manifest.writes| && manifest.writes[k].resource.CurrentCells?
    requires ResourcePrefix(CurrentCells) <= manifest.writes[k].pointer
    requires IsNestedProperty(manifest, raw)
    requires GrantText(manifest.writes[k]) == Join(raw, '/')
    ensures GateAccepts(manifest, Merged(raw, 1))
  {
    var write := manifest.writes[k];
    var key := raw[1] + "/" + raw[2];
    assert Merged(raw, 1) == ["properties", key];
    assert raw[1..] == [raw[1], raw[2]] && raw[1..][1..] == [raw[2]];
    assert Join(raw[1..], '/') == key;
    assert GrantText(write) == "properties" + "/" + key;
    assert write.pointer == ResourcePrefix(CurrentCells) + GrantText(write);
    PropertyPointer(key);
    assert manifest.writes[k] == Write(CurrentCells, PROPERTY_PREFIX + key);
  }

  lemma PropertyPointer(key: string)
    ensures ResourcePrefix(CurrentCells) + ("properties" + "/" + key) == PROPERTY_PREFIX + key
  {
    assert ResourcePrefix(CurrentCells) + ("properties" + "/") == PROPERTY_PREFIX;
    Reassociate(ResourcePrefix(CurrentCells), "properties" + "/", key);
  }

  lemma Reassociate(a: string, b: string, c: string)
    ensures a + (b + c) == (a + b) + c
  {
  }

  lemma SlashedKey(x: string, y: string)
    requires x != "" && y != ""
    ensures x + "/" + y !in {"", ".", "..", "~"}
  {
    assert |x + "/" + y| >= 3;
  }

  // ---------- grants that their own gate refuses ----------

  /** What manifest validation asks of one grant, given by its raw and decoded segments. */
  lemma GrantAccepted(raw: seq<string>, decoded: seq<string>, moduleId: string, name: string)
    requires |raw| == |decoded| >= 2 && decoded[1] !in RESERVED_OUTPUT_KEYS
    requires forall i :: 0 <= i < |raw| ==> raw[i] != "" && !HasControl(raw[i]) && Scan(raw[i]) == Some(decoded[i])
    requires || (decoded[0] == "modules" && decoded[1] == name)
             || (decoded[0] == "properties" && (decoded[1] == moduleId || moduleId + "_" <= decoded[1]))
    ensures ValidateGrantSegments(raw, moduleId, name) == Some(decoded)
  {
    DecodeAllExact(raw, decoded);
    assert "" !in raw;
  }

  lemma DropPrefix(prefix: string, text: string)
    ensures prefix <= prefix + text && (prefix + text)[|prefix|..] == text
  {
  }

  /** A manifest with one grant on current cells. */
  function Granting(moduleId: string, name: string, text: string): Manifest {
    Manifest(moduleId, name, [Write(CurrentCells, ResourcePrefix(CurrentCells) + text)], {})
  }

  lemma {:induction false} PointerAccepted(write: Write, raw: seq<string>, moduleId: string, name: string)
    requires ResourcePrefix(write.resource) <= write.pointer && GrantText(write) == Join(raw, '/')
    requires raw != [] && forall i :: 0 <= i < |raw| ==> '/' !in raw[i]
    ensures Split(GrantText(write), '/') == raw
    ensures ValidateWritePointer(write, moduleId, name) == ValidateGrantSegments(raw, moduleId, name)
  {
    SplitJoin(raw, '/');
  }

  lemma OneGrantValid(manifest: Manifest, write: Write, decoded: seq<string>)
    requires manifest.writes == [write] && FoldCase(manifest.name) !in RESERVED_MODULE_KEYS
    requires ValidateWritePointer(write, manifest.moduleId, manifest.name) == Some(decoded)
    ensures ValidManifest(manifest) && Named(manifest, 0) == decoded
  {
    assert manifest.writes[0] == write;
  }

  lemma {:induction false} SingleGrant(moduleId: string, name: string, raw: seq<string>, decoded: seq<string>)
    requires FoldCase(name) !in RESERVED_MODULE_KEYS && raw != [] && forall i :: 0 <= i < |raw| ==> '/' !in raw[i]
    requires ValidateGrantSegments(raw, moduleId, name) == Some(decoded)
    ensures var manifest := Granting(moduleId, name, Join(raw, '/'));
            && ValidManifest(manifest) && Named(manifest, 0) == decoded
            && GrantText(manifest.writes[0]) == Join(raw, '/') && Split(GrantText(manifest.writes[0]), '/') == raw
  {
    var text := Join(raw, '/');
    var manifest := Granting(moduleId, name, text);
    DropPrefix(ResourcePrefix(CurrentCells), text);
    PointerAccepted(manifest.writes[0], raw, moduleId, name);
    OneGrantValid(manifest, manifest.writes[0], decoded);
  }

  /** The gate refuses a single grant that holds an escape or names a place that is not usable. */
  lemma {:induction false} SingleGrantRefused(moduleId: string, name: string, raw: seq<string>, decoded: seq<string>)
    requires FoldCase(name) !in RESERVED_MODULE_KEYS && raw != [] && forall i :: 0 <= i < |raw| ==> '/' !in raw[i]
    requires ValidateGrantSegments(raw, moduleId, name) == Some(decoded)
    requires HoldsTilde(raw) || !Usable(Granting(moduleId, name, Join(raw, '/')), decoded)
    ensures var manifest := Granting(moduleId, name, Join(raw, '/'));
            ValidManifest(manifest) && Admit(manifest, CurrentCells, Some("/" + Join(raw, '/'))).Failure?
  {
    SingleGrant(moduleId, name, raw, decoded);
    GrantOpensGate(Granting(moduleId, name, Join(raw, '/')), 0);
  }

  lemma {:induction false} PlainScan(s: string)
    requires '~' !in s
    ensures Scan(s) == Some(s)
  {
    if s != "" {
      PlainScan(s[1..]);
      assert s == [s[0]] + s[1..];
    }
  }

  const ESCAPED: seq<string> := ["modules", "Foo", "a~1b"]
  const BARE: seq<string> := ["properties", "foo"]

  lemma Texts()
    ensures Join(ESCAPED, '/') == "modules/Foo/a~1b" && Join(BARE, '/') == "properties/foo"
  {
    assert ESCAPED[1..] == ["Foo", "a~1b"] && ESCAPED[1..][1..] == ["a~1b"];
    assert BARE[1..] == ["foo"];
  }

  lemma EscapedScan()
    ensures Scan("a~1b") == Some("a/b")
  {
    ScanEscape("a/b");
    assert "a/b"[1..] == "/b" && "/b"[1..] == "b" && "b"[1..] == "";
    assert Escape("b") == "b" && Escape("/b") == "~1b";
  }

  lemma EscapedAccepted()
    ensures ValidateGrantSegments(ESCAPED, "foo", "Foo") == Some(["modules", "Foo", "a/b"])
  {
    PlainScan("modules");
    PlainScan("Foo");
    EscapedScan();
    GrantAccepted(ESCAPED, ["modules", "Foo", "a/b"], "foo", "Foo");
  }

  lemma BareAccepted()
    ensures ValidateGrantSegments(BARE, "foo", "Foo") == Some(BARE)
  {
    PlainScan("properties");
    PlainScan("foo");
    GrantAccepted(BARE, BARE, "foo", "Foo");
  }

  /** A valid manifest whose one grant names the key "a/b" of the module: the gate refuses that key. */
  lemma EscapedGrantRefused()
    ensures var manifest := Granting("foo", "Foo", "modules/Foo/a~1b");
            ValidManifest(manifest) && Admit(manifest, CurrentCells, Some("/" + "modules/Foo/a~1b")).Failure?
  {
    Texts();
    EscapedAccepted();
    assert '~' in ESCAPED[2];
    assert FoldCase("Foo") == "foo";
    SingleGrantRefused("foo", "Foo", ESCAPED, ["modules", "Foo", "a/b"]);
  }

  /** A valid manifest that grants the property named exactly like the module: the gate refuses that property. */
  lemma BarePropertyRefused()
    ensures var manifest := Granting("foo", "Foo", "properties/foo");
            ValidManifest(manifest) && Admit(manifest, CurrentCells, Some("/" + "properties/foo")).Failure?
  {
    Texts();
    BareAccepted();
    assert FoldCase("Foo") == "foo";
    SingleGrantRefused("foo", "Foo", BARE, BARE);
  }
}
