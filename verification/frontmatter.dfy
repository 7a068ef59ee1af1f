/** Splitting a Markdown document into its front-matter block and body, and
    reassembling it (`internal/hugo/frontmatter.go`). The TOML and YAML
    grammars are not part of this model: they enter as a `Codec`, a pair of
    functions the caller supplies. */
module FrontMatter {
  import opened Wrappers
  import opened Strings
  import opened Meta

  /** The `Format` field: "toml", "yaml", or Go's zero value "" (`Unset`),
      which only the editor's parse-failure fallback produces. */
  datatype Format = Toml | Yaml | Unset

  const TomlFence: string := "+++"
  const YamlFence: string := "---"

  /** The fence written for a format: `+++` for TOML, `---` otherwise. */
  function Fence(f: Format): string {
    if f == Toml then TomlFence else YamlFence
  }

  /** The dialect `ToString` encodes with: TOML only for "toml", YAML for
      every other value of `Format`. */
  function WriteFormat(f: Format): Format {
    if f == Toml then Toml else Yaml
  }

  /** `MDFile`. A `None` metadata stands for a nil Go map, which a YAML
      document holding only `null` decodes to. */
  datatype MDFile = MDFile(meta: Option<MetaMap>, body: string, format: Format)

  /** The metadata grammars (`toml.Decode`/`yaml.Unmarshal` and
      `toml.NewEncoder(..).Encode`/`yaml.Marshal`), keyed by dialect. Errors
      are the libraries' messages. */
  datatype Codec = Codec(
    decode: (Format, string) -> Result<Option<MetaMap>, string>,
    encode: (Format, Option<MetaMap>) -> Result<string, string>)

  /** The two-fence split for a document that opens with `Fence(f)`:
      `strings.SplitN(content, fence, 3)`, a fallback when the fence never
      closes, otherwise the decoded block and the rest minus one newline. */
  function SplitFrontMatter(content: string, f: Format, codec: Codec): (r: Result<MDFile, string>)
    requires f != Unset && HasPrefix(content, Fence(f))
    ensures r.Success? ==> r.value.format == f && HasSuffix(content, r.value.body)
    ensures r.Success? && r.value.body != content ==> |r.value.body| + 6 <= |content|
  {
    var fence := Fence(f);
    var parts := SplitN(content, fence, 3);
    if |parts| < 3 then Success(MDFile(Some(map[]), content, f))
    else
      ThirdPartIsTail(content, fence, parts);
      match codec.decode(f, parts[1])
      case Failure(e) => Failure(e)
      case Success(m) => Success(MDFile(m, TrimPrefix(parts[2], "\n"), f))
  }

  /** When the split finds both fences, the body taken from the third part
      is a tail of the document, shorter by at least the two fences. */
  lemma ThirdPartIsTail(content: string, fence: string, parts: seq<string>)
    requires |fence| > 0 && parts == SplitN(content, fence, 3) && |parts| == 3
    ensures HasSuffix(content, TrimPrefix(parts[2], "\n"))
    ensures |TrimPrefix(parts[2], "\n")| + 2 * |fence| <= |content|
  {
    assert parts[1..][1..] == [parts[2]];
    assert content == parts[0] + fence + parts[1] + fence + parts[2];
    var body := TrimPrefix(parts[2], "\n");
    assert content[|content| - |body|..] == body;
  }

  /** `ParseMD`. The dialect is chosen by the first three bytes only, TOML
      before YAML; a document with neither fence is all body, tagged "yaml",
      with empty metadata. Whatever happens, the body is a tail of the
      input. */
  function ParseMD(content: string, codec: Codec): (r: Result<MDFile, string>)
    ensures r.Success? ==> r.value.format == (if HasPrefix(content, TomlFence) then Toml else Yaml)
    ensures r.Success? ==> HasSuffix(content, r.value.body)
    ensures !HasPrefix(content, TomlFence) && !HasPrefix(content, YamlFence) ==>
              r == Success(MDFile(Some(map[]), content, Yaml))
    ensures r.Failure? ==> HasPrefix(content, TomlFence) || HasPrefix(content, YamlFence)
  {
    if HasPrefix(content, TomlFence) then SplitFrontMatter(content, Toml, codec)
    else if HasPrefix(content, YamlFence) then SplitFrontMatter(content, Yaml, codec)
    else Success(MDFile(Some(map[]), content, Yaml))
  }

  /** `ToString`: fence, newline, encoded block, fence, newline, body. The
      fence is `+++` exactly when the format is "toml"; any encoding error is
      returned as is. */
  function ToString(doc: MDFile, codec: Codec): (r: Result<string, string>)
    ensures r.Failure? <==> codec.encode(WriteFormat(doc.format), doc.meta).Failure?
    ensures r.Failure? ==> r.error == codec.encode(WriteFormat(doc.format), doc.meta).error
    ensures r.Success? ==> HasPrefix(r.value, Fence(doc.format) + "\n")
    ensures r.Success? ==> HasSuffix(r.value, Fence(doc.format) + "\n" + doc.body)
    ensures r.Success? ==> (HasPrefix(r.value, TomlFence) <==> doc.format == Toml)
    ensures r.Success? ==> |r.value| >= |doc.body| + 8
    ensures r.Success? ==>
              codec.encode(WriteFormat(doc.format), doc.meta)
                == Success(r.value[4..|r.value| - |doc.body| - 4])
  {
    var f := WriteFormat(doc.format);
    match codec.encode(f, doc.meta)
    case Failure(e) => Failure(e)
    case Success(block) =>
      var out := Fence(f) + "\n" + block + Fence(f) + "\n" + doc.body;
      assert out[..4] == Fence(f) + "\n";
      assert out[4..|out| - |doc.body| - 4] == block;
      assert out[|out| - |doc.body| - 4..] == Fence(f) + "\n" + doc.body;
      assert Fence(f) == Fence(doc.format);
      assert out[0] == (if f == Toml then '+' else '-');
      Success(out)
  }

  // ---------------------------------------------------------------------
  // Properties of the splitter
  // ---------------------------------------------------------------------

  /** The opening fence is the first occurrence, and the search for the
      closing one starts right after it. */
  lemma SplitNAtTwoFences(fence: string, head: string, rest: string)
    requires |fence| > 0
    requires Index(head + fence, fence) == |head|
    ensures SplitN(fence + head + fence + rest, fence, 3) == ["", head, rest]
  {
    var s := fence + head + fence + rest;
    assert OccursAt(s, fence, 0);
    assert Index(s, fence) == 0;
    var s1 := s[|fence|..];
    assert s1 == (head + fence) + rest;
    assert OccursAt(head + fence, fence, |head|);
    IndexOfPrefix(head + fence, rest, fence, |head|);
    assert s1[..|head|] == head;
    assert s1[|head| + |fence|..] == rest;
    assert s[..0] == "";
  }

  /** A document whose opening fence never closes is all body, with empty
      metadata and the detected dialect, and no error. */
  lemma UnterminatedFence(f: Format, rest: string, codec: Codec)
    requires f != Unset
    requires !Contains(rest, Fence(f))
    ensures ParseMD(Fence(f) + rest, codec) == Success(MDFile(Some(map[]), Fence(f) + rest, f))
  {
  }

  /** Only the first two fences split: the body is everything after the
      second one with at most one leading newline removed, so later fences
      stay in the body verbatim; a block that fails to decode yields the
      decoder's error and no document. */
  lemma SplitAtFirstTwoFences(content: string, f: Format, head: string, rest: string, codec: Codec)
    requires f != Unset
    requires content == Fence(f) + head + Fence(f) + rest
    requires Index(head + Fence(f), Fence(f)) == |head|
    ensures ParseMD(content, codec) ==
              match codec.decode(f, head)
              case Failure(e) => Failure(e)
              case Success(m) => Success(MDFile(m, TrimPrefix(rest, "\n"), f))
  {
    SplitNAtTwoFences(Fence(f), head, rest);
    assert HasPrefix(content, Fence(f));
    if f == Yaml {
      assert content[0] == '-';
    }
  }

  /** Exactly one newline is trimmed after the closing fence: a rest that
      starts with a blank line leaves the body starting with a newline. */
  lemma OneNewlineTrimmed(content: string, f: Format, head: string, tail: string, codec: Codec)
    requires f != Unset
    requires content == Fence(f) + head + Fence(f) + "\n\n" + tail
    requires Index(head + Fence(f), Fence(f)) == |head|
    requires codec.decode(f, head).Success?
    ensures ParseMD(content, codec).Success?
    ensures ParseMD(content, codec).value.body == "\n" + tail
  {
    var rest := "\n\n" + tail;
    assert content == Fence(f) + head + Fence(f) + rest;
    SplitAtFirstTwoFences(content, f, head, rest, codec);
    assert HasPrefix(rest, "\n");
    assert rest[1..] == "\n" + tail;
  }

  /** The unterminated-fence fallback happens exactly when the fence does
      not occur again after the opening one. */
  lemma FallbackIffUnterminated(f: Format, rest: string, codec: Codec)
    requires f != Unset
    ensures ParseMD(Fence(f) + rest, codec) == Success(MDFile(Some(map[]), Fence(f) + rest, f))
            <==> !Contains(rest, Fence(f))
  {
    var s := Fence(f) + rest;
    if Contains(rest, Fence(f)) {
      var i := Index(rest, Fence(f));
      var head := rest[..i];
      CutBeforeFirst(rest, Fence(f));
      assert rest == head + Fence(f) + rest[i + 3..];
      assert s == Fence(f) + head + Fence(f) + rest[i + 3..];
      SplitAtFirstTwoFences(s, f, head, rest[i + 3..], codec);
    } else {
      UnterminatedFence(f, rest, codec);
    }
  }

  // ---------------------------------------------------------------------
  // Round trip through ToString
  // ---------------------------------------------------------------------

  /** After `ToString`, the closing fence is found right after the encoded
      block, provided the block holds no fence and ends in a newline. */
  lemma ClosingFenceFound(block: string, f: Format)
    requires !Contains(block, Fence(f))
    requires |block| == 0 || block[|block| - 1] == '\n'
    ensures Index("\n" + block + Fence(f), Fence(f)) == |block| + 1
  {
    var fence := Fence(f);
    var a := "\n" + block + fence;
    var n := |block| + 1;
    assert OccursAt(a, fence, n);
    forall j | 0 <= j < n
      ensures !OccursAt(a, fence, j)
    {
      if j + 3 <= n {
        if j == 0 {
          assert a[0] != fence[0];
        } else {
          assert a[j..j + 3] == block[j - 1..j + 2];
          assert !OccursAt(block, fence, j - 1);
        }
      } else {
        assert a[n - 1] == '\n';
        assert fence[n - 1 - j] != '\n';
      }
    }
  }

  /** Body round trip: re-parsing the output of `ToString` gives back the
      body unchanged, in the dialect `ToString` wrote ("toml" for "toml",
      "yaml" for anything else), with whatever the decoder makes of the
      encoded block. */
  lemma BodyRoundTrip(doc: MDFile, codec: Codec, block: string, decoded: Option<MetaMap>)
    requires codec.encode(WriteFormat(doc.format), doc.meta) == Success(block)
    requires !Contains(block, Fence(doc.format))
    requires |block| == 0 || block[|block| - 1] == '\n'
    requires codec.decode(WriteFormat(doc.format), "\n" + block) == Success(decoded)
    ensures ToString(doc, codec).Success?
    ensures ParseMD(ToString(doc, codec).value, codec)
              == Success(MDFile(decoded, doc.body, WriteFormat(doc.format)))
  {
    var f := WriteFormat(doc.format);
    assert Fence(f) == Fence(doc.format);
    ClosingFenceFound(block, f);
    var out := ToString(doc, codec).value;
    assert out == Fence(f) + "\n" + block + Fence(f) + "\n" + doc.body;
    assert out == Fence(f) + ("\n" + block) + Fence(f) + ("\n" + doc.body);
    SplitAtFirstTwoFences(out, f, "\n" + block, "\n" + doc.body, codec);
    assert ("\n" + doc.body)[1..] == doc.body;
  }

  /** Document round trip: when the decoder inverts the encoder on this
      document's metadata, parsing the serialised text gives back the whole
      document (for a document tagged "toml" or "yaml"). */
  lemma DocumentRoundTrip(doc: MDFile, codec: Codec, block: string)
    requires doc.format != Unset
    requires codec.encode(doc.format, doc.meta) == Success(block)
    requires !Contains(block, Fence(doc.format))
    requires |block| == 0 || block[|block| - 1] == '\n'
    requires codec.decode(doc.format, "\n" + block) == Success(doc.meta)
    ensures ToString(doc, codec).Success?
    ensures ParseMD(ToString(doc, codec).value, codec) == Success(doc)
  {
    BodyRoundTrip(doc, codec, block, doc.meta);
  }
}
