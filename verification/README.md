# Bayan — a Dafny model of the front-matter codec and the editor's screens

Bayan is a desktop editor for Hugo websites. This project models its core rules as pure Dafny functions and proves properties about them:

- `FrontMatter` (`internal/hugo/frontmatter.go`) splits a Markdown document into a TOML (`+++`) or YAML (`---`) front-matter block and a body, and rebuilds the text from the two.
- `EditorView` (`internal/ui/editor.go`) covers the editor:
  - loading a file, with its parse-failure fallback;
  - one form field per metadata key, in key order;
  - turning widget texts back into metadata on save (lists split on `,` and trimmed);
  - the title shown in the tool bar.
- `Explorer` (`internal/ui/explorer.go`) covers the file explorer:
  - which entries are listed and in what order;
  - when the up button shows;
  - what tapping an item and going up do;
  - how new files and folders are named;
  - the label shown for a file.
- `Sites` (`internal/ui/sites.go`) covers the site selector: which directories are sites, what tapping one selects, and when the new-site form starts a clone.
- Supporting modules:
  - `Wrappers`: `Option` and `Result`.
  - `Strings`: Go's `strings` functions used by the core.
  - `Collections`: filter, insertion sort, sorted keys.
  - `Paths`: paths as lists of segments, and the file system as a snapshot.
  - `Meta`: front-matter values and their `%v` text.

Inputs and outputs become explicit parameters and results:

- The TOML and YAML grammars are a `Codec` value: a decode function and an encode function, keyed by dialect.
- `os.ReadFile` becomes an `Option<string>` parameter.
- `os.ReadDir` becomes a `FileSystem` snapshot parameter, mapping a path to its entries or `None`.
- The outcomes of `os.Create`, `os.Mkdir` and the git clone are parameters.
- Strings are byte strings: one `char` per Go byte.

`ToString` always writes a fence block, even for a document that was parsed without one. It uses `+++` for "toml" and `---` for anything else, including the empty format that the editor gives a document it failed to parse (`EditorView.ParseFailureSavesYamlFence`).

## Model

| member | source | states |
|---|---|---|
| Strings.SplitN | internal/hugo/frontmatter.go:21 | `strings.SplitN` with a non-empty separator: at most n parts that join back to the input, each cut at the leftmost separator, and no separator left in the last part when fewer than n parts come out |
| Strings.Split | internal/ui/editor.go:189 | `strings.Split`: the parts join back to the input with the separator, none of them contains it, and each cut is at the leftmost remaining separator |
| Strings.SplitJoinOneByte | internal/ui/editor.go:189 | splitting on a one-byte separator undoes joining with it when no part contains that byte |
| Strings.TrimRight | internal/ui/explorer.go:62 | a cut-set trim: the result is a prefix of the input, everything removed is in the cut set, and the last byte kept is not |
| Strings.TrimSpace | internal/ui/editor.go:192 | the result is a slice of the input with only ASCII white space cut off on either side, and it neither starts nor ends with white space |
| Strings.TrimSpaceOfTrimmed | internal/ui/editor.go:192 | trimming keeps an already trimmed text, and removes a single blank put in front of it |
| Strings.ToLower | internal/ui/explorer.go:158 | same length as the input, with each ASCII capital replaced by its small letter and every other byte kept |
| Strings.LessIffFirstDifference | internal/ui/explorer.go:163 | Go's string `<` (`Strings.Less`) holds exactly when the first string is a proper prefix of the second, or has the smaller byte where they first differ |
| Paths.JoinPath | internal/ui/explorer.go:185 | joining a directory-entry name adds exactly one segment below the directory, and that segment is the name |
| Paths.Dir | internal/ui/explorer.go:201 | the parent drops exactly the last segment; only the file-system root is its own parent |
| Paths.Base | internal/ui/editor.go:117 | the root's base is "/"; every other path is its parent joined with its base |
| Meta.Show | internal/ui/editor.go:74 | `%v` text: booleans print as "true" or "false", strings and unmodelled kinds as their text, integers as their canonical decimal text (`Meta.DenotesInt`: a minus sign exactly when negative, then digits without leading zeros that read back as the magnitude), lists inside square brackets, an empty list as "[]" |
| Meta.IntToString | internal/ui/editor.go:90 | an integer prints as its canonical decimal text: a minus sign exactly when negative, then digits without leading zeros whose decimal value is the magnitude |
| Meta.IntTextUnique | internal/ui/editor.go:74 | an integer has exactly one canonical decimal text, so the contract of `Show` fixes every byte of an integer's text |
| Meta.ShowListParts | internal/ui/editor.go:74 | a list prints as its items' `%v` texts separated by blanks inside brackets: with blank-free items, cutting the inside at blanks gives those texts back |
| Collections.SortBy | internal/ui/explorer.go:163-164 | the result is sorted by the key with Go's byte-wise string order, and is a permutation of the input |
| Collections.SortedPermutationUnique | internal/ui/explorer.go:163-164 | with distinct keys only one order is sorted, so an unstable sort and the model's insertion sort agree |
| Collections.SortedKeys | internal/ui/editor.go:52-56 | the keys of a map exactly once each, in strictly ascending order |
| FrontMatter.SplitFrontMatter | internal/hugo/frontmatter.go:20-54 | the dialect found is the fence's, and the body is a tail of the document that is either all of it or at least two fences shorter |
| FrontMatter.ParseMD | internal/hugo/frontmatter.go:18-59 | "toml" exactly for a `+++` opening and "yaml" otherwise; the body is always a tail of the input; without a fence the whole text is the body, with empty metadata; errors happen only for fenced documents |
| FrontMatter.ToString | internal/hugo/frontmatter.go:62-77 | fails exactly when the encoder fails, with the encoder's error; otherwise the text opens with the format's fence, holds exactly the encoded block, and ends with the fence and the body; `+++` appears exactly for "toml" |
| FrontMatter.SplitNAtTwoFences | internal/hugo/frontmatter.go:21 | a document of fence, block, fence, rest splits into an empty head, the block and the rest |
| FrontMatter.UnterminatedFence | internal/hugo/frontmatter.go:22-25 | an opening fence that never closes gives the whole text as body, empty metadata, the detected dialect and no error |
| FrontMatter.SplitAtFirstTwoFences | internal/hugo/frontmatter.go:28-36 | only the first two fences split: the result is the decoder's error, or its metadata with the rest minus one leading newline as body |
| FrontMatter.OneNewlineTrimmed | internal/hugo/frontmatter.go:34 | only one newline is trimmed after the closing fence |
| FrontMatter.FallbackIffUnterminated | internal/hugo/frontmatter.go:21-26 | the unterminated fallback happens if and only if the fence does not occur again |
| FrontMatter.ClosingFenceFound | internal/hugo/frontmatter.go:68 | in the text `ToString` writes, the closing fence is found right after an encoded block that holds no fence and ends in a newline |
| FrontMatter.BodyRoundTrip | internal/hugo/frontmatter.go:62-77 | parsing what `ToString` wrote gives back the body unchanged, in the dialect that was written |
| FrontMatter.DocumentRoundTrip | internal/hugo/frontmatter.go:18-77 | when the decoder inverts the encoder, parsing the serialised text gives back the whole document |
| EditorView.WidgetFor | internal/ui/editor.go:63-93 | booleans and only booleans get a check box holding their value; strings are shown verbatim; other scalars are shown as their `%v` text; an empty list shows an empty entry |
| EditorView.ListDisplayParts | internal/ui/editor.go:70-85 | a list's entry joins its items' texts with ", ": with comma-free items, cutting the entry at commas gives the first text and then each other text behind one blank |
| EditorView.Form | internal/ui/editor.go:52-94 | one field per metadata key, each key once, keys ascending, each with the widget its value's type calls for |
| EditorView.Load | internal/ui/editor.go:150-169 | an unreadable file gives an empty document; a parse error is reported if and only if parsing fails, the error is the parser's, and the whole text is then kept as body with empty metadata and no format; otherwise the parsed parts are kept, with nil metadata replaced by an empty map |
| EditorView.ParseFailureSavesYamlFence | internal/ui/editor.go:158-162 | after a parse failure, saving unchanged puts a YAML fence block in front of the entire original text |
| EditorView.Ext | internal/ui/editor.go:117 | `filepath.Ext`: a tail of the name, empty exactly when the name has no dot, otherwise from the last dot on |
| EditorView.ExtOfName | internal/ui/editor.go:117 | the extension of stem + "." + ext is "." + ext when ext has no dot |
| EditorView.StemOfName | internal/ui/editor.go:117 | removing the extension gives the stem back |
| EditorView.Title | internal/ui/editor.go:117-120 | the file name without its extension, kept when at most 24 bytes, otherwise its first 24 bytes followed by "..." |
| EditorView.Truncate | internal/ui/editor.go:118-120 | texts of at most 24 bytes are kept; longer ones become their first 24 bytes followed by "..." |
| EditorView.TruncateIdempotent | internal/ui/editor.go:118-120 | cutting a cut title changes nothing, and a title is at most 27 bytes |
| EditorView.TitleOfMarkdownFile | internal/ui/editor.go:117-120 | the title of a Markdown file is its name without ".md", cut to 24 bytes |
| EditorView.NewEditor | internal/ui/editor.go:37-100 | the editor holds what `load` produced, one widget per key showing that key's value, the body in the body entry, and the title of its path |
| EditorView.SavedValue | internal/ui/editor.go:174-197 | a check box saves its boolean; a non-list entry saves its raw text as a string; a list entry saves one trimmed string per ","-separated part of its text |
| EditorView.Save | internal/ui/editor.go:171-203 | the key set becomes the old keys plus the widget keys; keys without a widget keep their value, keys with one get the widget's value; the body becomes the entry's text; nothing else in the editor changes; the output is `ToString` of the new document |
| EditorView.SaveKeepsKeys | internal/ui/editor.go:173-199 | saving a loaded editor neither adds nor removes keys, whatever was typed |
| EditorView.JoinedWithBlanks | internal/ui/editor.go:77 | joining on ", " equals joining on "," with a blank in front of every item but the first |
| EditorView.StringListRoundTrip | internal/ui/editor.go:81-85 | a non-empty list of comma-free, trimmed strings is saved back exactly as loaded |
| EditorView.EmptyListSavesOneBlank | internal/ui/editor.go:188-194 | an empty list comes back from save as a list of one empty string |
| EditorView.ValueListSavesTexts | internal/ui/editor.go:70-79 | a decoded list is saved as the list of its items' `%v` texts when those are comma-free and trimmed |
| EditorView.UntouchedScalarSave | internal/ui/editor.go:87-92 | an untouched boolean or string is saved unchanged; numbers and other scalars are saved as their text |
| EditorView.SaveThenReloadBody | internal/ui/editor.go:201-203 | re-parsing the saved text gives back exactly the text of the body entry |
| Explorer.MarkdownNameIgnoresCase | internal/ui/explorer.go:158 | a name counts as Markdown exactly when it ends in a dot, an m and a d, in either case |
| Explorer.Listing | internal/ui/explorer.go:150-166 | exactly the non-hidden directories and Markdown files, each as often as in the input; directories before files; each group sorted by name |
| Explorer.ListedDirs | internal/ui/explorer.go:156-163 | the non-hidden directories with their multiplicities, sorted by name |
| Explorer.ListedFiles | internal/ui/explorer.go:158-164 | the non-hidden Markdown files with their multiplicities, sorted by name |
| Explorer.GroupsInOrder | internal/ui/explorer.go:166 | appending the sorted files to the sorted directories keeps every directory in front and each group sorted |
| Explorer.GroupCounts | internal/ui/explorer.go:152-161 | the two groups together hold each listed entry exactly as often as the directory does |
| Explorer.RefreshDir | internal/ui/explorer.go:143-178 | a failed read changes nothing; otherwise the listing is replaced, and the up button shows exactly when the current directory is not the root |
| Explorer.NewFileExplorer | internal/ui/explorer.go:34-136 | the explorer starts at the root; the first refresh lists it and hides the up button; if the read fails, the list stays empty and the button visible |
| Explorer.OnItemTapped | internal/ui/explorer.go:180-195 | an index past the list does nothing; a directory becomes current and is listed, opening nothing; a file is opened by its full path, and the explorer stays where it is |
| Explorer.NavigateUp | internal/ui/explorer.go:197-211 | nothing happens at the root or at the file-system root; otherwise the parent becomes current and is listed |
| Explorer.NeverLeavesRoot | internal/ui/explorer.go:197-211 | starting, refreshing, tapping and going up all keep the current directory inside the root, and going up moves exactly one level |
| Explorer.NewFileName | internal/ui/explorer.go:232-237 | an empty name is refused; the new name ends in ".md", is the typed name when it already does, and the typed name plus ".md" otherwise |
| Explorer.NewFileIsListed | internal/ui/explorer.go:235-237 | naming a file twice gives the same name, and a new file that is not hidden passes the listing's filter |
| Explorer.NewFilePath | internal/ui/explorer.go:230-238 | an empty name is refused; a plain typed name gives a file directly in the current directory, under its new name |
| Explorer.NewFolderPath | internal/ui/explorer.go:213-218 | an empty name is refused; a plain typed name gives a folder directly in the current directory, under that name |
| Explorer.NewFile | internal/ui/explorer.go:230-253 | an empty name does nothing; a failed create reports its error; otherwise the directory is re-listed and the new file is opened |
| Explorer.NewFolder | internal/ui/explorer.go:213-224 | an empty name does nothing; a failed mkdir reports its error; otherwise the directory is re-listed and nothing is opened |
| Explorer.CreatedFileIsShown | internal/ui/explorer.go:230-253 | a created file that the file system lists is shown and opened, and the current directory stays the same |
| Explorer.FileLabel | internal/ui/explorer.go:62 | as written: the label is a prefix of the name, every byte cut off is '.', 'm' or 'd', and the last byte kept is none of them |
| Explorer.FileLabelOverTrims | internal/ui/explorer.go:62 | as written, "command.md" is labelled "comman", and the intended label is "command" |
| Explorer.FileLabelIsStemIff | internal/ui/explorer.go:62 | as written, a file's label is its stem if and only if the stem is empty or does not end in '.', 'm' or 'd' |
| Explorer.IntendedFileLabel | internal/ui/explorer.go:62 | a name ending in ".md" loses exactly that suffix, and any other name is kept |
| Explorer.IntendedFileLabelIsStem | internal/ui/explorer.go:62 | the intended label of stem + ".md" is always the stem |
| Explorer.ItemLabel | internal/ui/explorer.go:56-63 | as written: a directory shows its name; a file shows its name with every trailing '.', 'm' or 'd' cut off |
| Explorer.IntendedItemLabel | internal/ui/explorer.go:56-63 | corrected: a directory shows its name; a file shows its name without one ".md" suffix |
| Explorer.ItemLabelsAgreeIff | internal/ui/explorer.go:62 | the program's label and the intended label of stem + ".md" agree if and only if the stem is empty or does not end in '.', 'm' or 'd' |
| Sites.SiteListing | internal/ui/sites.go:92-98 | exactly the non-hidden directories, each as often as in the input, sorted by name |
| Sites.RefreshSites | internal/ui/sites.go:80-102 | a failed read keeps the old list; otherwise the list becomes the sites of the root |
| Sites.NewSiteSelector | internal/ui/sites.go:30-56 | the selector starts with the sites of the root, or with none if the root cannot be read |
| Sites.OnSiteTapped | internal/ui/sites.go:104-114 | nothing is selected exactly when the index is past the list; otherwise the selection is the tapped site's directory directly under the root |
| Sites.TappedSiteIsListedSite | internal/ui/sites.go:93-109 | whatever is selected is a non-hidden directory that the root really contains |
| Sites.NewSiteRequest | internal/ui/sites.go:136-149 | a clone starts exactly when the form is confirmed, "Clone" is checked, and both name and URL are non-empty; for a plain name it targets that directory directly under the root |
| Sites.FinishClone | internal/ui/sites.go:151-186 | a failed mkdir or clone reports its error; success re-lists the sites and creates "content" inside the new site |
| Sites.ClonedSiteIsSelectable | internal/ui/sites.go:136-185 | a successfully cloned, non-hidden site is listed afterwards, and tapping it selects the requested directory |

## Left out

- The TOML and YAML grammars (`toml.Decode`, `yaml.Unmarshal` and their encoders) are not modelled. They enter as the `Codec` parameter, and the round-trip lemmas assume what they need of them as preconditions.
- File-system effects are not modelled: `os.ReadFile`, `os.WriteFile`, `os.ReadDir`, `os.Stat`/`os.MkdirAll` of the websites root, `os.Create`, `os.Mkdir`. Reads are snapshot parameters, and the outcomes of writes are parameters.
- The git clone (`gitlib`) is not modelled. Neither is the SSH key from `config`, the background goroutine, or `fyne.Do`. The clone's outcome is a parameter of `Sites.FinishClone`.
- The Fyne widget tree, layout, icons, tabs, the Markdown preview and the path label are left out. So are the nil checks on the open-file, select-site and close callbacks: the model returns what would be handed to the callback.
- The non-clone branch of the new-site form is left out: it does nothing.
- `onboard.go`, `main.go` and `config.go` are not part of this model.
- Explorer.NewFilePath: the typed name is joined as one path segment. Go's `filepath.Join` cleans it, so a name containing '/' or ".." (such as "notes/a" or "../x") creates the file in another directory, possibly outside the root. The model does not represent such names.
- Explorer.NewFolderPath: the typed name is joined as one path segment, so a name containing '/' or ".." is not represented. In Go it creates the folder elsewhere, possibly outside the root.
- Sites.NewSiteRequest: the typed site name is joined as one path segment, so a name containing '/' or ".." is not represented. In Go it makes the clone target a directory other than a direct child of the websites root.
- Paths are modelled as cleaned segment lists. `filepath.Join`, `Dir` and `Base` are modelled only for plain entry names. Comparisons of unclean path strings are not modelled.
- `Strings.ToLower` and `Strings.TrimSpace` are ASCII-only. Go's versions also handle Unicode.
- `Strings.Split` and `Strings.SplitN` are modelled for non-empty separators only. The core always uses a non-empty one.
- `Meta.Show` models `%v` for booleans, strings, integers and lists only. Floats, dates and nested tables are carried as their `%v` text (`Meta.Other`), which is taken as given, not computed.
- `sort.Slice` is not stable, and the model uses insertion sort. They can differ only among entries with equal names (`Collections.SortedPermutationUnique`). A directory never holds two such entries.

## Findings

| source | as written | input that shows it | evidently intended | confidence | as-written member | corrected member |
|---|---|---|---|---|---|---|
| internal/ui/explorer.go:62 | `strings.TrimRight(name, ".md")` removes every trailing '.', 'm' or 'd' byte | a file named "command.md" is labelled "comman" | remove the ".md" suffix once, as `strings.TrimSuffix` does | not executed | Explorer.FileLabel (Explorer.FileLabelOverTrims, Explorer.FileLabelIsStemIff, Explorer.ItemLabel) | Explorer.IntendedFileLabel (Explorer.IntendedFileLabelIsStem, Explorer.IntendedItemLabel) |
