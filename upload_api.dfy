/**
 * The upload endpoint's naming rule and reply. Each stored file is named
 * `<id>.<ext>`, where `id` is a freshly generated identifier (a parameter
 * here) and `ext` is the last `.`-separated segment of the name the client
 * sent. The reply is 500 when the multipart handler reports an error and
 * 200 otherwise.
 */
module UploadApi {
  import opened Wrappers

  const Dot: char := '.'

  /** `s.split(sep)` for a one-character separator: the text between separators, in order. */
  function Split(s: string, sep: char): (parts: seq<string>)
    ensures |parts| >= 1
    ensures forall i :: 0 <= i < |parts| ==> sep !in parts[i]
    ensures sep !in s ==> parts == [s]
    ensures sep in s ==> |parts| > 1
  {
    if s == [] then [""]
    else
      var rest := Split(s[1..], sep);
      if s[0] == sep then [""] + rest
      else
        assert s == [s[0]] + s[1..];
        [[s[0]] + rest[0]] + rest[1..]
  }

  /** `parts.join(sep)`: the inverse of Split. */
  function Join(parts: seq<string>, sep: char): string
    requires |parts| >= 1
  {
    if |parts| == 1 then parts[0]
    else parts[0] + [sep] + Join(parts[1..], sep)
  }

  /** Joining the segments again gives back the text: Split loses nothing. */
  lemma {:induction false} JoinSplit(s: string, sep: char)
    ensures Join(Split(s, sep), sep) == s
  {
    if s != [] {
      var rest := Split(s[1..], sep);
      JoinSplit(s[1..], sep);
      if s[0] == sep {
        assert Split(s, sep)[1..] == rest;
      } else {
        var parts := Split(s, sep);
        assert parts[1..] == rest[1..];
        if |rest| > 1 {
          assert rest[0] + [sep] + Join(rest[1..], sep) == s[1..];
          assert Join(parts, sep) == [s[0]] + rest[0] + [sep] + Join(rest[1..], sep);
        }
      }
    }
  }

  /** `split('.').pop()`: the last segment. Split never yields an empty list, so pop always has one. */
  function Extension(originalName: string): (e: string)
    ensures Dot !in e
    ensures Dot !in originalName ==> e == originalName
  {
    var parts := Split(originalName, Dot);
    parts[|parts| - 1]
  }

  /** The name a file is stored under. */
  function StoredName(id: string, originalName: string): (r: string)
    ensures |r| > |id| && r[..|id|] == id && r[|id|] == Dot
    ensures Dot !in r[|id| + 1..]
  {
    id + [Dot] + Extension(originalName)
  }

  /**
   * The last segment of the split is the text after the last separator:
   * the whole text when it has none, and otherwise a suffix right after a
   * separator, itself free of separators.
   */
  lemma {:induction false} LastSegment(s: string, sep: char)
    ensures var parts := Split(s, sep); var e := parts[|parts| - 1];
      sep !in e &&
      (sep !in s ==> e == s) &&
      (sep in s ==> |e| < |s| && s[|s| - |e| - 1] == sep && s[|s| - |e|..] == e)
  {
    if s != [] && sep in s {
      var parts := Split(s, sep);
      var e := parts[|parts| - 1];
      var rest := Split(s[1..], sep);
      var e' := rest[|rest| - 1];
      LastSegment(s[1..], sep);
      assert e == e';
      if sep in s[1..] {
        assert s[1..][|s[1..]| - |e| - 1] == s[|s| - |e| - 1];
        assert s[1..][|s[1..]| - |e|..] == s[|s| - |e|..];
      } else {
        assert s[0] == sep;
        assert e == s[1..];
      }
    }
  }

  /** The extension never holds a dot, and it is the text after the last dot of the name. */
  lemma ExtensionAfterLastDot(originalName: string)
    ensures Dot !in Extension(originalName)
    ensures Dot in originalName ==>
      var e := Extension(originalName); var n := |originalName|;
      |e| < n && originalName[n - |e| - 1] == Dot && originalName[n - |e|..] == e
  {
    LastSegment(originalName, Dot);
  }

  /** A name without a dot is its own extension, so it is stored as `<id>.<name>`, not as the bare id. */
  lemma NoDotKeepsWholeName(id: string, originalName: string)
    requires Dot !in originalName
    ensures Extension(originalName) == originalName
    ensures StoredName(id, originalName) == id + "." + originalName
  {
    LastSegment(originalName, Dot);
  }

  /** A name ending in a dot has an empty extension and is stored as `<id>.`. */
  lemma TrailingDotEmptyExtension(id: string, originalName: string)
    requires |originalName| > 0 && originalName[|originalName| - 1] == Dot
    ensures Extension(originalName) == ""
    ensures StoredName(id, originalName) == id + "."
  {
    LastSegment(originalName, Dot);
  }

  /** The stored name is the id, a dot and the extension, and the extension can be read back from it. */
  lemma StoredNameShape(id: string, originalName: string)
    ensures var r := StoredName(id, originalName);
      |r| == |id| + 1 + |Extension(originalName)| &&
      r[..|id|] == id && r[|id|] == Dot && r[|id| + 1..] == Extension(originalName)
  {
  }

  /**
   * The stored name depends on the original name only through its
   * extension: with one id, two names give the same stored name exactly
   * when their extensions agree.
   */
  lemma StoredNameOnlyByExtension(id: string, a: string, b: string)
    ensures StoredName(id, a) == StoredName(id, b) <==> Extension(a) == Extension(b)
  {
    if StoredName(id, a) == StoredName(id, b) {
      assert StoredName(id, a)[|id| + 1..] == Extension(a);
      assert StoredName(id, b)[|id| + 1..] == Extension(b);
    }
  }

  /** Whatever precedes the last dot, the dot-free text after it is the extension. */
  lemma ExtensionOfDotted(stem: string, ext: string)
    requires Dot !in ext
    ensures Extension(stem + [Dot] + ext) == ext
  {
    var name := stem + [Dot] + ext;
    var n := |name|;
    assert name[n - |ext| - 1] == Dot;
    assert Dot in name;
    LastSegment(name, Dot);
    assert name[n - |ext|..] == ext;
  }

  /** `a.txt` is stored with the extension `txt`. */
  lemma StoredNameWithExtension(id: string)
    ensures StoredName(id, "a.txt") == id + ".txt"
  {
    assert "a.txt" == "a" + [Dot] + "txt";
    ExtensionOfDotted("a", "txt");
  }

  /** `b`, which has no dot, is stored as `<id>.b`. */
  lemma StoredNameWithoutDot(id: string)
    ensures StoredName(id, "b") == id + ".b"
  {
    NoDotKeepsWholeName(id, "b");
  }

  const UploadFailedText: string := "Erro ao fazer upload do arquivo."
  const UploadDoneText: string := "Upload do arquivo concluído com sucesso."

  /** The JSON payload of the reply; `stracktrace` is the key as the endpoint spells it. */
  datatype Body<E> = Message(message: string) | Failure(error: string, stracktrace: E)

  datatype Reply<E> = Reply(status: nat, body: Body<E>)

  /**
   * The reply once the multipart handler has finished, given the error it
   * reports, if any.
   */
  function Respond<E>(err: Option<E>): (r: Reply<E>)
    ensures r.status == 500 <==> err.Some?
    ensures r.status == 200 <==> err.None?
    ensures err.Some? ==> r.body == Failure(UploadFailedText, err.value)
    ensures err.None? ==> r.body == Message(UploadDoneText)
  {
    match err
    case Some(e) => Reply(500, Failure(UploadFailedText, e))
    case None => Reply(200, Message(UploadDoneText))
  }
}
