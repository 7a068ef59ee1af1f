/** The document editor's pure rules (`internal/ui/editor.go`): loading with
    a parse-failure fallback, building one form field per metadata key,
    turning the edited fields back into metadata on save, and the title
    shown in the tool bar. Widgets are reduced to the value they hold. */
module EditorView {
  import opened Wrappers
  import opened Strings
  import opened Collections
  import Paths
  import opened Meta
  import opened FrontMatter

  /** A form widget: a check box for booleans, a one-line text entry for
      everything else. */
  datatype Widget = Check(checked: bool) | Entry(text: string)

  /** One row of the metadata form. */
  datatype FormField = FormField(key: string, widget: Widget)

  /** The text that separates list items in an entry. */
  const ListJoiner: string := ", "

  /** The widget created for a metadata value: booleans get a check box,
      lists an entry with their items' `%v` text joined by ", ", anything
      else an entry with the value's `%v` text. */
  function WidgetFor(v: MetaValue): (w: Widget)
    ensures w.Check? <==> v.Bool?
    ensures v.Bool? ==> w.checked == v.b
    ensures v.Str? ==> w == Entry(v.s)
    ensures !v.Bool? && !IsListValue(v) ==> w == Entry(Show(v))
    ensures v.List? && |v.items| == 0 ==> w == Entry("")
    ensures v.StrList? && |v.strs| == 0 ==> w == Entry("")
  {
    match v
    case Bool(b) => Check(b)
    case List(items) => Entry(Join(ItemTexts(items), ListJoiner))
    case StrList(strs) => Entry(Join(strs, ListJoiner))
    case _ => Entry(Show(v))
  }

  /** The metadata form: one field per key, in ascending key order. */
  function Form(meta: MetaMap): (fields: seq<FormField>)
    ensures |fields| == |meta|
    ensures forall i :: 0 <= i < |fields| ==>
              fields[i].key in meta && fields[i].widget == WidgetFor(meta[fields[i].key])
    ensures forall k :: k in meta ==> exists i :: 0 <= i < |fields| && fields[i].key == k
    ensures forall i, j :: 0 <= i < j < |fields| ==> Less(fields[i].key, fields[j].key)
  {
    var keys := SortedKeys(meta.Keys);
    var fields := seq(|keys|, i requires 0 <= i < |keys| => FormField(keys[i], WidgetFor(meta[keys[i]])));
    EveryKeyHasAField(meta, keys, fields);
    assert |meta.Keys| == |meta|;
    fields
  }

  lemma EveryKeyHasAField(meta: MetaMap, keys: seq<string>, fields: seq<FormField>)
    requires forall k :: k in meta ==> k in keys
    requires |fields| == |keys| && forall i :: 0 <= i < |keys| ==> fields[i].key == keys[i]
    ensures forall k :: k in meta ==> exists i :: 0 <= i < |fields| && fields[i].key == k
  {
    forall k | k in meta
      ensures exists i :: 0 <= i < |fields| && fields[i].key == k
    {
      var i :| 0 <= i < |keys| && keys[i] == k;
      assert fields[i].key == k;
    }
  }

  // ---------------------------------------------------------------------
  // Loading
  // ---------------------------------------------------------------------

  /** What `load` leaves in the editor: the document's parts and the error
      it showed, if any. */
  datatype Loaded = Loaded(meta: MetaMap, body: string, format: Format, error: Option<string>)

  /** `load`, with the file's content as input (`None` when it cannot be
      read). A read failure gives an empty document; a parse failure keeps
      the whole original text as body, with empty metadata and no format; a
      successful parse has nil metadata replaced by an empty map. */
  function Load(content: Option<string>, codec: Codec): (l: Loaded)
    ensures content.None? ==> l == Loaded(map[], "", Unset, None)
    ensures l.error.Some? <==> content.Some? && ParseMD(content.value, codec).Failure?
    ensures l.error.Some? ==> l.error.value == ParseMD(content.value, codec).error
    ensures l.error.Some? ==> l.meta == map[] && l.body == content.value && l.format == Unset
    ensures content.Some? ==> HasSuffix(content.value, l.body)
    ensures l.error.None? && content.Some? ==>
              var md := ParseMD(content.value, codec).value;
              l.body == md.body && l.format == md.format
                && (md.meta.Some? ==> l.meta == md.meta.value)
                && (md.meta.None? ==> l.meta == map[])
  {
    match content
    case None => Loaded(map[], "", Unset, None)
    case Some(text) =>
      match ParseMD(text, codec)
      case Failure(e) =>
        assert text[|text| - |text|..] == text;
        Loaded(map[], text, Unset, Some(e))
      case Success(md) => Loaded(md.meta.GetOr(map[]), md.body, md.format, None)
  }

  /** After a parse failure the editor's document has no format, so saving
      it unchanged writes a YAML fence block in front of the entire original
      text. */
  lemma ParseFailureSavesYamlFence(content: string, codec: Codec, block: string)
    ensures ParseMD(content, codec).Failure? && codec.encode(Yaml, Some(map[])) == Success(block) ==>
              var l := Load(Some(content), codec);
              ToString(MDFile(Some(l.meta), l.body, l.format), codec)
                == Success(YamlFence + "\n" + block + YamlFence + "\n" + content)
  {
    var l := Load(Some(content), codec);
    if ParseMD(content, codec).Failure? {
      assert l.format == Unset && l.meta == map[] && l.body == content;
    }
  }

  // ---------------------------------------------------------------------
  // The editor and its title
  // ---------------------------------------------------------------------

  /** The longest title shown before it is cut. */
  const TitleLimit: nat := 24

  /** `filepath.Ext` of a file name: from the last '.' to the end, or empty
      when there is no '.'. */
  function Ext(name: string): (e: string)
    ensures HasSuffix(name, e)
    ensures e == "" || (e[0] == '.' && '.' !in e[1..])
    ensures e == "" <==> '.' !in name
    decreases |name|
  {
    if |name| == 0 then ""
    else
      var last := name[|name| - 1];
      assert name == name[..|name| - 1] + [last];
      if last == '.' then "."
      else
        var e := Ext(name[..|name| - 1]);
        if e == "" then "" else e + [last]
  }

  /** The file name without its extension. */
  function Stem(name: string): string {
    TrimSuffix(name, Ext(name))
  }

  /** The extension is what follows the last dot. */
  lemma {:induction false} ExtOfName(stem: string, ext: string)
    requires '.' !in ext
    ensures Ext(stem + "." + ext) == "." + ext
    decreases |ext|
  {
    var name := stem + "." + ext;
    if |ext| == 0 {
      assert name[|name| - 1] == '.';
    } else {
      var front := ext[..|ext| - 1];
      var last := ext[|ext| - 1];
      assert ext == front + [last];
      assert last in ext;
      assert name[..|name| - 1] == stem + "." + front;
      assert name[|name| - 1] == last;
      assert '.' !in front by {
        assert forall c :: c in front ==> c in ext;
      }
      ExtOfName(stem, front);
    }
  }

  /** A stem is recovered from any name made of it, a dot and a dot-free
      extension. */
  lemma StemOfName(stem: string, ext: string)
    requires '.' !in ext
    ensures Stem(stem + "." + ext) == stem
  {
    var name := stem + "." + ext;
    ExtOfName(stem, ext);
    assert name[|name| - |ext| - 1..] == "." + ext;
    assert name[..|name| - |ext| - 1] == stem;
  }

  /** A label longer than the limit becomes its first 24 bytes and "...". */
  function Truncate(text: string): (r: string)
    ensures |text| <= TitleLimit ==> r == text
    ensures |text| > TitleLimit ==>
              |r| == TitleLimit + 3 && r[..TitleLimit] == text[..TitleLimit] && HasSuffix(r, "...")
  {
    if |text| > TitleLimit then text[..TitleLimit] + "..." else text
  }

  /** Cutting is stable: a cut title is cut to itself. */
  lemma TruncateIdempotent(text: string)
    ensures Truncate(Truncate(text)) == Truncate(text)
    ensures |Truncate(text)| <= TitleLimit + 3
  {
  }

  /** The tool-bar title: the file name without extension, cut. */
  function Title(path: Paths.Path): (t: string)
    ensures |t| <= TitleLimit + 3
    ensures |Stem(Paths.Base(path))| <= TitleLimit ==> t == Stem(Paths.Base(path))
    ensures |Stem(Paths.Base(path))| > TitleLimit ==>
              |t| == TitleLimit + 3 && t[..TitleLimit] == Stem(Paths.Base(path))[..TitleLimit] && HasSuffix(t, "...")
  {
    Truncate(Stem(Paths.Base(path)))
  }

  /** The title of a Markdown file is its name without ".md", cut. */
  lemma TitleOfMarkdownFile(dir: Paths.Path, stem: string)
    ensures Title(Paths.JoinPath(dir, stem + ".md")) == Truncate(stem)
    ensures |stem| <= TitleLimit ==> Title(Paths.JoinPath(dir, stem + ".md")) == stem
  {
    StemOfName(stem, "md");
    assert stem + ".md" == stem + "." + "md";
  }

  /** The editor's state. `fields` is `fieldMap` (each key's value as
      loaded), `widgets` is `widgetMap`, `bodyText` the body entry's text. */
  datatype Editor = Editor(
    path: Paths.Path,
    meta: MetaMap,
    body: string,
    format: Format,
    fields: MetaMap,
    widgets: map<string, Widget>,
    bodyText: string,
    title: string,
    loadError: Option<string>)

  /** `NewEditor`: load, then one widget per metadata key holding that
      key's value, and the body in the body entry. */
  function NewEditor(path: Paths.Path, content: Option<string>, codec: Codec): (ed: Editor)
    ensures ed.widgets.Keys == ed.meta.Keys && ed.fields == ed.meta
    ensures forall k :: k in ed.widgets ==> ed.widgets[k] == WidgetFor(ed.meta[k])
    ensures ed.bodyText == ed.body
    ensures ed.title == Title(path)
    ensures var l := Load(content, codec);
            ed.meta == l.meta && ed.body == l.body && ed.format == l.format && ed.loadError == l.error
  {
    var l := Load(content, codec);
    var widgets := map k | k in l.meta :: WidgetFor(l.meta[k]);
    Editor(path, l.meta, l.body, l.format, l.meta, widgets, l.body, Title(path), l.error)
  }

  // ---------------------------------------------------------------------
  // Saving
  // ---------------------------------------------------------------------

  /** Each part of a list entry, with surrounding white space removed. */
  function TrimAll(parts: seq<string>): (r: seq<string>)
    ensures |r| == |parts|
    ensures forall i :: 0 <= i < |r| ==> r[i] == TrimSpace(parts[i])
  {
    seq(|parts|, i requires 0 <= i < |parts| => TrimSpace(parts[i]))
  }

  /** The value `save` stores for a widget: a check box stores its boolean;
      an entry whose loaded value was a list stores the text split on ","
      with each part trimmed; any other entry stores its raw text. */
  function SavedValue(w: Widget, wasList: bool): (v: MetaValue)
    ensures v.Bool? <==> w.Check?
    ensures w.Check? ==> v.b == w.checked
    ensures w.Entry? && !wasList ==> v == Str(w.text)
    ensures w.Entry? && wasList ==>
              v.StrList? && |v.strs| == |Split(w.text, ",")|
              && Join(Split(w.text, ","), ",") == w.text
              && forall i :: 0 <= i < |v.strs| ==>
                   Trimmed(v.strs[i]) && v.strs[i] == TrimSpace(Split(w.text, ",")[i])
  {
    match w
    case Check(c) => Bool(c)
    case Entry(t) => if wasList then StrList(TrimAll(Split(t, ","))) else Str(t)
  }

  /** The result of `save`: the editor afterwards, and the text to write
      (or the encoder's error). */
  datatype Saved = Saved(editor: Editor, output: Result<string, string>)

  /** `save`: every key with a widget is overwritten with that widget's
      value, every other key keeps its value, the body becomes the body
      entry's text, and the document is serialised with `ToString`. */
  function Save(ed: Editor, codec: Codec): (s: Saved)
    ensures s.editor.meta.Keys == ed.meta.Keys + ed.widgets.Keys
    ensures forall k :: k in ed.meta && k !in ed.widgets ==> s.editor.meta[k] == ed.meta[k]
    ensures forall k :: k in ed.widgets ==>
              s.editor.meta[k] == SavedValue(ed.widgets[k], k in ed.fields && IsListValue(ed.fields[k]))
    ensures s.editor.body == ed.bodyText
    ensures s.editor.(meta := ed.meta, body := ed.body) == ed
    ensures s.output == ToString(MDFile(Some(s.editor.meta), ed.bodyText, ed.format), codec)
  {
    var meta := map k | k in ed.meta.Keys + ed.widgets.Keys ::
      if k in ed.widgets
      then SavedValue(ed.widgets[k], k in ed.fields && IsListValue(ed.fields[k]))
      else ed.meta[k];
    var after := ed.(meta := meta, body := ed.bodyText);
    Saved(after, ToString(MDFile(Some(meta), ed.bodyText, ed.format), codec))
  }

  // ---------------------------------------------------------------------
  // Properties of load and save
  // ---------------------------------------------------------------------

  /** Saving a freshly loaded editor neither adds nor removes metadata keys,
      whatever the user typed into its widgets. */
  lemma SaveKeepsKeys(ed: Editor, edited: map<string, Widget>, bodyText: string, codec: Codec)
    requires ed.widgets.Keys == ed.meta.Keys
    requires edited.Keys == ed.widgets.Keys
    ensures Save(ed.(widgets := edited, bodyText := bodyText), codec).editor.meta.Keys == ed.meta.Keys
  {
  }

  /** The parts a `","` split finds in a `", "`-joined list: the items,
      with a blank in front of every item but the first. */
  function Blanked(items: seq<string>): (r: seq<string>)
    requires |items| >= 1
    ensures |r| == |items| && r[0] == items[0]
    ensures forall i :: 1 <= i < |r| ==> r[i] == " " + items[i]
  {
    [items[0]] + seq(|items| - 1, i requires 0 <= i < |items| - 1 => " " + items[i + 1])
  }

  lemma JoinBlankHead(x: string, rest: seq<string>)
    ensures Join([" " + x] + rest, ",") == " " + Join([x] + rest, ",")
  {
  }

  /** Joining on `", "` is joining the blanked items on `","`. */
  lemma {:induction false} JoinedWithBlanks(items: seq<string>)
    requires |items| >= 1
    ensures Join(items, ListJoiner) == Join(Blanked(items), ",")
    decreases |items|
  {
    if |items| > 1 {
      var tail := items[1..];
      JoinedWithBlanks(tail);
      var bt := Blanked(tail);
      var b := Blanked(items);
      assert bt == [tail[0]] + bt[1..];
      assert b[1..] == [" " + tail[0]] + bt[1..];
      JoinBlankHead(tail[0], bt[1..]);
      assert Join(b, ",") == items[0] + "," + Join(b[1..], ",");
    }
  }

  /** A list's entry shows its item texts separated by ", ": when no item
      text holds a comma, cutting the entry at commas gives the first text
      and then every other text behind one blank. */
  lemma ListDisplayParts(v: MetaValue)
    requires IsListValue(v)
    requires var texts := if v.List? then ItemTexts(v.items) else v.strs;
      |texts| >= 1 && forall k :: 0 <= k < |texts| ==> ',' !in texts[k]
    ensures WidgetFor(v).Entry?
    ensures Split(WidgetFor(v).text, ",") == Blanked(if v.List? then ItemTexts(v.items) else v.strs)
  {
    var texts := if v.List? then ItemTexts(v.items) else v.strs;
    assert WidgetFor(v).text == Join(texts, ListJoiner);
    JoinedWithBlanks(texts);
    var padded := Blanked(texts);
    forall k | 0 <= k < |padded|
      ensures ',' !in padded[k]
    {
    }
    SplitJoinOneByte(padded, ',');
  }

  /** List round trip: a non-empty list of strings without commas and
      without surrounding white space is saved back exactly as loaded. */
  lemma StringListRoundTrip(items: seq<string>)
    requires |items| >= 1
    requires forall i :: 0 <= i < |items| ==> ',' !in items[i] && Trimmed(items[i])
    ensures SavedValue(WidgetFor(StrList(items)), true) == StrList(items)
  {
    var w := WidgetFor(StrList(items));
    ListDisplayParts(StrList(items));
    TrimAllBlanked(items);
    assert SavedValue(w, true) == StrList(TrimAll(Split(w.text, ",")));
  }

  /** Trimming the blanked parts of trimmed items gives the items. */
  lemma TrimAllBlanked(items: seq<string>)
    requires |items| >= 1
    requires forall i :: 0 <= i < |items| ==> Trimmed(items[i])
    ensures TrimAll(Blanked(items)) == items
  {
    var padded := Blanked(items);
    var trimmed := TrimAll(padded);
    forall k | 0 <= k < |padded|
      ensures trimmed[k] == items[k]
    {
      TrimSpaceOfTrimmed(items[k]);
      if k == 0 {
        assert padded[k] == items[k];
      } else {
        assert padded[k] == " " + items[k];
      }
    }
    assert |trimmed| == |items|;
  }

  /** An empty list is saved back as a list holding one empty string. */
  lemma EmptyListSavesOneBlank()
    ensures SavedValue(WidgetFor(StrList([])), true) == StrList([""])
  {
  }

  /** A decoded list of any values is saved as a list of their `%v` texts
      when those texts are comma-free and trimmed. */
  lemma ValueListSavesTexts(items: seq<MetaValue>)
    requires |items| >= 1
    requires forall i :: 0 <= i < |items| ==> ',' !in Show(items[i]) && Trimmed(Show(items[i]))
    ensures SavedValue(WidgetFor(List(items)), true)
              == StrList(ItemTexts(items))
  {
    StringListRoundTrip(ItemTexts(items));
  }

  /** Saving an untouched field: booleans and strings come back unchanged,
      numbers and other scalars come back as their text. */
  lemma UntouchedScalarSave(v: MetaValue)
    requires !IsListValue(v)
    ensures SavedValue(WidgetFor(v), false) == (if v.Bool? then v else Str(Show(v)))
    ensures v.Str? ==> SavedValue(WidgetFor(v), false) == v
    ensures v.Int? ==> SavedValue(WidgetFor(v), false) == Str(IntToString(v.i))
  {
  }

  /** Save then reload: when the encoded block is fence-free, ends in a
      newline and decodes, re-parsing the saved text gives back exactly the
      text of the body entry. */
  lemma SaveThenReloadBody(ed: Editor, codec: Codec, block: string, decoded: Option<MetaMap>)
    requires codec.encode(WriteFormat(ed.format), Some(Save(ed, codec).editor.meta)) == Success(block)
    requires !Contains(block, Fence(ed.format))
    requires |block| == 0 || block[|block| - 1] == '\n'
    requires codec.decode(WriteFormat(ed.format), "\n" + block) == Success(decoded)
    ensures Save(ed, codec).output.Success?
    ensures ParseMD(Save(ed, codec).output.value, codec).Success?
    ensures ParseMD(Save(ed, codec).output.value, codec).value.body == ed.bodyText
  {
    var s := Save(ed, codec);
    BodyRoundTrip(MDFile(Some(s.editor.meta), ed.bodyText, ed.format), codec, block, decoded);
  }
}
