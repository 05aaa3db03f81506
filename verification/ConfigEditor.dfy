/** One locked edit of a configuration leaf with its rollback (src/edgewarn_cli/configure.py). */
module ConfigEditor {
  import opened Wrappers
  import opened ConfigDocument

  /** The configuration loader and the YAML printer: parsing, printing over an original text, and the two validators. */
  datatype Loader = Loader(
    names: set<string>,
    parse: string -> Option<Document>,
    print_: (string, Document) -> string,
    admits: (string, Document) -> bool,
    sound: map<string, string> -> bool)

  datatype Outcome =
    | Edited(previous: Document)
    | Rejected
    | Unaddressable(error: Error)
    | WriteFailed
    | Restored
    | RollbackFailed

  datatype Attempt = Attempt(files: map<string, string>, outcome: Outcome)

  /** The new text of the edited file, or why there is none. */
  function Replacement(loader: Loader, files: map<string, string>, name: string, segments: seq<string>, v: Value):
    (r: Result<string, Outcome>)
    ensures r.Success? ==>
              && name in files && loader.parse(files[name]).Some?
              && Resolve(loader.parse(files[name]).value, segments).Success?
  {
    if name !in loader.names || name !in files || !loader.sound(files) then Failure(Rejected)
    else
      match loader.parse(files[name])
      case None => Failure(Rejected)
      case Some(d) =>
        if !d.Mapping? then Failure(Rejected)
        else
          AssignFailsAlike(d, segments, Scalar(v));
          match Assign(d, segments, Scalar(v))
          case Failure(e) => Failure(Unaddressable(e))
          case Success(e) =>
            var text := loader.print_(files[name], e);
            if !loader.admits(name, e) then Failure(Rejected)
            else
              match loader.parse(text)
              case None => Failure(Rejected)
              case Some(parsed) => if loader.admits(name, parsed) then Success(text) else Failure(Rejected)
  }

  /** A whole edit; `writes` says whether the first and the restoring replacement succeed. */
  function Edit(loader: Loader, files: map<string, string>, name: string, segments: seq<string>, v: Value,
                writes: (bool, bool)): Attempt
  {
    match Replacement(loader, files, name, segments, v)
    case Failure(reason) => Attempt(files, reason)
    case Success(text) =>
      var changed := files[name := text];
      if !writes.0 then Attempt(files, WriteFailed)
      else if loader.sound(changed) then
        Attempt(changed, Edited(Resolve(loader.parse(files[name]).value, segments).value))
      else if !writes.1 then Attempt(changed, RollbackFailed)
      else if loader.sound(changed[name := files[name]]) then Attempt(changed[name := files[name]], Restored)
      else Attempt(changed[name := files[name]], RollbackFailed)
  }

  class Editor {
    const loader: Loader
    var files: map<string, string>

    constructor (loader: Loader, files: map<string, string>)
      ensures this.loader == loader && this.files == files
    {
      this.loader, this.files := loader, files;
    }

    /** `_atomic_replace`: the new text or nothing. */
    method Replace(name: string, text: string, succeeds: bool) returns (ok: bool)
      modifies this
      ensures ok == succeeds
      ensures files == if ok then old(files)[name := text] else old(files)
    {
      ok := succeeds;
      if ok {
        files := files[name := text];
      }
    }

    method EditConfiguration(name: string, segments: seq<string>, v: Value, writes: (bool, bool))
      returns (outcome: Outcome)
      modifies this
      ensures Attempt(files, outcome) == Edit(loader, old(files), name, segments, v, writes)
    {
      if name !in loader.names || name !in files {
        return Rejected;
      }
      if !loader.sound(files) {
        return Rejected;
      }
      var original := files[name];
      var document := loader.parse(original);
      if document.None? || !document.value.Mapping? {
        return Rejected;
      }
      var place := ResolveLeaf(document.value, segments);
      AssignFailsAlike(document.value, segments, Scalar(v));
      if place.Failure? {
        return Unaddressable(place.error);
      }
      var previous := Child(place.value.0, place.value.1);
      var edited := Assign(document.value, segments, Scalar(v)).value;
      if !loader.admits(name, edited) {
        return Rejected;
      }
      var text := loader.print_(original, edited);
      var parsed := loader.parse(text);
      if parsed.None? || !loader.admits(name, parsed.value) {
        return Rejected;
      }
      var written := Replace(name, text, writes.0);
      if !written {
        return WriteFailed;
      }
      if loader.sound(files) {
        return Edited(previous);
      }
      var restored := Replace(name, original, writes.1);
      if !restored || !loader.sound(files) {
        return RollbackFailed;
      }
      return Restored;
    }
  }

  /** The catalog is known, sound and holds a mapping. */
  ghost predicate Editable(loader: Loader, files: map<string, string>, name: string) {
    && name in loader.names && name in files && loader.sound(files)
    && loader.parse(files[name]).Some? && loader.parse(files[name]).value.Mapping?
  }

  /** The edited document and the text printed for it pass the validators. */
  ghost predicate Passes(loader: Loader, name: string, original: string, edited: Document) {
    && loader.admits(name, edited)
    && loader.parse(loader.print_(original, edited)).Some?
    && loader.admits(name, loader.parse(loader.print_(original, edited)).value)
  }

  /** Every outcome with the condition under which it is reported, and the files that it leaves. */
  lemma {:induction false} EditExact(
    loader: Loader, files: map<string, string>, name: string, segments: seq<string>, v: Value, writes: (bool, bool))
    ensures var r := Edit(loader, files, name, segments, v, writes);
            if !Editable(loader, files, name) then r == Attempt(files, Rejected)
            else
              var d := loader.parse(files[name]).value;
              var place := Resolve(d, segments);
              if place.Failure? then r == Attempt(files, Unaddressable(place.error))
              else
                && Assign(d, segments, Scalar(v)).Success?
                && var edited := Assign(d, segments, Scalar(v)).value;
                   var changed := files[name := loader.print_(files[name], edited)];
                   if !Passes(loader, name, files[name], edited) then r == Attempt(files, Rejected)
                   else if !writes.0 then r == Attempt(files, WriteFailed)
                   else if loader.sound(changed) then r == Attempt(changed, Edited(place.value))
                   else if writes.1 then r == Attempt(files, Restored)
                   else r == Attempt(changed, RollbackFailed)
  {
    if Editable(loader, files, name) {
      var d := loader.parse(files[name]).value;
      AssignFailsAlike(d, segments, Scalar(v));
      if Resolve(d, segments).Success? {
        var text := loader.print_(files[name], Assign(d, segments, Scalar(v)).value);
        assert files[name := text][name := files[name]] == files;
      }
    }
  }

  /** The files change only when the edit is reported as done or its rollback could not be written; a sound catalog
      stays sound unless that last write failed. */
  lemma EditIsSafe(loader: Loader, files: map<string, string>, name: string, segments: seq<string>, v: Value,
                   writes: (bool, bool))
    ensures var r := Edit(loader, files, name, segments, v, writes);
            && (r.files != files ==> r.outcome.Edited? || r.outcome.RollbackFailed?)
            && (r.outcome.RollbackFailed? <==>
                  Replacement(loader, files, name, segments, v).Success? && writes.0 && !writes.1
                  && !loader.sound(files[name := Replacement(loader, files, name, segments, v).value]))
            && (loader.sound(files) && !r.outcome.RollbackFailed? ==> loader.sound(r.files))
            && forall other | other != name :: (other in r.files <==> other in files)
                 && (other in files ==> r.files[other] == files[other])
  {
    if name in files {
      var changed := Replacement(loader, files, name, segments, v);
      assert changed.Success? ==> files[name := changed.value][name := files[name]] == files;
    }
  }

  /** The text printed for this one edit parses back to the edited document. */
  predicate PrintsBack(loader: Loader, text: string, segments: seq<string>, v: Value) {
    loader.parse(text).Some? ==>
      var e := Assign(loader.parse(text).value, segments, Scalar(v));
      e.Success? ==> loader.parse(loader.print_(text, e.value)) == Some(e.value)
  }

  /** A done edit of leaf `i` shows, when the file is read again, that leaf with the new value and every other leaf as
      it was, provided the text printed for this edit parses back; writing the reported previous value
      through the same path then gives the old document back. */
  lemma EditChangesOneLeaf(loader: Loader, files: map<string, string>, name: string, i: nat, v: Value,
                           writes: (bool, bool))
    requires name in files && loader.parse(files[name]).Some? && Valid(loader.parse(files[name]).value)
    requires i < |FlattenDocument(loader.parse(files[name]).value)|
    requires PrintsBack(loader, files[name], FlattenDocument(loader.parse(files[name]).value)[i].path, v)
    ensures var d := loader.parse(files[name]).value;
            var leaf := FlattenDocument(d)[i];
            var r := Edit(loader, files, name, leaf.path, v, writes);
            r.outcome.Edited? ==>
              && r.outcome == Edited(Scalar(leaf.value))
              && loader.parse(r.files[name]).Some?
              && FlattenDocument(loader.parse(r.files[name]).value) == FlattenDocument(d)[i := Leaf(leaf.path, v)]
              && Valid(loader.parse(r.files[name]).value)
              && Assign(loader.parse(r.files[name]).value, leaf.path, Scalar(leaf.value)) == Success(d)
  {
    var d := loader.parse(files[name]).value;
    var leaf := FlattenDocument(d)[i];
    if d.Mapping? {
      EditOfLeaf(d, i, v);
      if Edit(loader, files, name, leaf.path, v, writes).outcome.Edited? {
        EditedText(loader, files, name, leaf.path, v, writes);
      }
    }
  }

  /** A loader that knows two texts, the file before and after one edit. */
  function TwoTexts(before: Document, after: Document): Loader {
    Loader({"c"}, t => Some(if t == "old" then before else after), (t, d) => "new", (n, d) => true, f => true)
  }

  /** For every valid document and every leaf there is a loader under which the edit is done and prints back. */
  lemma {:induction false} SomeLoaderEdits(d: Document, i: nat, v: Value)
    requires Valid(d) && d.Mapping? && i < |FlattenDocument(d)|
    ensures var path := FlattenDocument(d)[i].path;
            && Assign(d, path, Scalar(v)).Success?
            && var loader := TwoTexts(d, Assign(d, path, Scalar(v)).value);
            && PrintsBack(loader, "old", path, v)
            && Edit(loader, map["c" := "old"], "c", path, v, (true, true)).outcome.Edited?
  {
    EditOfLeaf(d, i, v);
  }

  /** What a done edit leaves in the file and reports. */
  lemma {:induction false} EditedText(
    loader: Loader, files: map<string, string>, name: string, segments: seq<string>, v: Value, writes: (bool, bool))
    requires Edit(loader, files, name, segments, v, writes).outcome.Edited?
    ensures var d := loader.parse(files[name]).value;
            var r := Edit(loader, files, name, segments, v, writes);
            && Assign(d, segments, Scalar(v)).Success?
            && r.files == files[name := loader.print_(files[name], Assign(d, segments, Scalar(v)).value)]
            && r.outcome == Edited(Resolve(d, segments).value)
  {
  }

  /** The same for the document alone. */
  lemma {:induction false} EditOfLeaf(d: Document, i: nat, v: Value)
    requires Valid(d) && !d.Scalar? && i < |FlattenDocument(d)|
    ensures var leaf := FlattenDocument(d)[i];
            var e := Assign(d, leaf.path, Scalar(v));
            && Resolve(d, leaf.path) == Success(Scalar(leaf.value))
            && e.Success? && Valid(e.value)
            && FlattenDocument(e.value) == FlattenDocument(d)[i := Leaf(leaf.path, v)]
            && Assign(e.value, leaf.path, Scalar(leaf.value)) == Success(d)
  {
    var leaf := FlattenDocument(d)[i];
    LeafAddressingExact(d, leaf.path, leaf.value);
    AssignLeaf(d, i, v);
    AssignLaws(d, leaf.path, Scalar(v), Scalar(leaf.value));
    AssignKeepsValid(d, leaf.path, Scalar(v));
  }
}
