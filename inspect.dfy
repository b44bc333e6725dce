/** `Git.info`: the file named between '<' and '>' in a command, its
    "extension", and the counts reported for text and source files. The
    existence check and the file's text are inputs; timestamps and image
    dimensions are not modelled. */
module Inspect {
  import opened Wrappers
  import opened PyStr

  /** Where the parse raises `IndexError`: no '<' in the command (line 46),
      or no '.' in the name of an existing file (line 62). */
  datatype ParseError = NoTargetMarker | NoExtension

  /** `input.split('<')[1]` with one trailing '>' removed: the text between
      the first '<' and the next '<' (or the end), less a final '>'. */
  function TargetName(input: string): (r: Result<string, ParseError>)
    ensures r.Err? <==> '<' !in input
    ensures r.Err? ==> r.error == NoTargetMarker
    ensures r.Ok? ==>
      var i := Find(input, '<');
      var rest := input[i + 1..];
      var field := rest[..Find(rest, '<')];
      r.value == if |field| > 0 && field[|field| - 1] == '>' then field[..|field| - 1] else field
  {
    var parts := Split(input, '<');
    CountPositive(input, '<');
    if |parts| < 2 then Err(NoTargetMarker)
    else
      SplitSecond(input, '<');
      var field := parts[1];
      Ok(if |field| > 0 && field[|field| - 1] == '>' then field[..|field| - 1] else field)
  }

  /** `fileName.split('.')[1]`: the text between the first '.' and the next
      one (or the end), so "a.b.txt" gives "b", not "txt". */
  function Extension(fileName: string): (r: Result<string, ParseError>)
    ensures r.Err? <==> '.' !in fileName
    ensures r.Err? ==> r.error == NoExtension
    ensures r.Ok? ==>
      var i := Find(fileName, '.');
      var rest := fileName[i + 1..];
      r.value == rest[..Find(rest, '.')]
  {
    var ext := Split(fileName, '.');
    CountPositive(fileName, '.');
    if |ext| < 2 then Err(NoExtension)
    else
      SplitSecond(fileName, '.');
      Ok(ext[1])
  }

  datatype FileKind = TextFile | ImageFile | CodeFile | OtherFile

  /** The branch `info` takes for an extension. */
  function KindOf(ext: string): (kind: FileKind)
    ensures kind == TextFile <==> ext == "txt"
    ensures kind == ImageFile <==> ext in {"jpg", "jpeg", "png", "svg"}
    ensures kind == CodeFile <==> ext in {"cs", "java", "py"}
    ensures kind == OtherFile <==> ext !in {"txt", "jpg", "jpeg", "png", "svg", "cs", "java", "py"}
  {
    if ext == "txt" then TextFile
    else if ext in ["jpg", "jpeg", "png", "svg"] then ImageFile
    else if ext in ["cs", "java", "py"] then CodeFile
    else OtherFile
  }

  datatype TextStats = TextStats(lines: nat, words: nat, characters: nat)

  /** Lines that end in whitespace (as every line but the last of a file
      does) keep their words apart whether they are joined with a space or
      not. */
  lemma {:induction false} JoinedWithSpace(ls: seq<string>)
    requires forall i :: 0 <= i < |ls| - 1 ==> |ls[i]| > 0 && IsSpace(ls[i][|ls[i]| - 1])
    ensures Words(Join(ls, ' ')) == Words(Concat(ls))
  {
    if |ls| == 1 {
      assert Concat(ls) == ls[0] + Concat([]);
      assert ls[0] + "" == ls[0];
    } else if |ls| > 1 {
      var first, rest := ls[0], ls[1..];
      calc {
        Words(Join(ls, ' '));
      == { assert Join(ls, ' ') == first + [' '] + Join(rest, ' ');
           WordsAcrossSpace(first, ' ', Join(rest, ' ')); }
        Words(first) + Words(Join(rest, ' '));
      == { JoinedWithSpace(rest); }
        Words(first) + Words(Concat(rest));
      == { EndsInSpaceWords(first, Concat(rest)); }
        Words(first + Concat(rest));
      }
      assert Concat(ls) == first + Concat(rest);
    }
  }

  /** Lines 65-70 for a text file: `len(lines)`, the words of
      `' '.join(lines).split()` and their total length. The line count is one
      per newline plus one for an unterminated last line, the word count is
      the number of maximal non-whitespace runs of the file, and the character
      count is the number of its non-whitespace characters. */
  function TextMetrics(text: string): (r: TextStats)
    ensures r.lines == Count(text, '\n') + (if text != [] && text[|text| - 1] != '\n' then 1 else 0)
    ensures r.words == Runs(text, true)
    ensures r.characters == NonSpaceCount(text)
  {
    var lines := Lines(text);
    var words := Words(Join(lines, ' '));
    LinesCount(text);
    JoinedWithSpace(lines);
    WordsCountRuns(text);
    WordsKeepNonSpace(text);
    TextStats(|lines|, |words|, TotalLength(words))
  }

  /** Line 81: the number of lines containing "class". */
  function ClassCount(lines: seq<string>): (r: nat)
    ensures r <= |lines|
    ensures r == 0 <==> forall i :: 0 <= i < |lines| ==> !Contains(lines[i], "class")
    ensures r == |lines| <==> forall i :: 0 <= i < |lines| ==> Contains(lines[i], "class")
  {
    if lines == [] then 0
    else
      var rest := ClassCount(lines[1..]);
      assert forall i :: 1 <= i < |lines| ==> lines[i] == lines[1..][i - 1];
      (if Contains(lines[0], "class") then 1 else 0) + rest
  }

  /** What `info` reports about the file named in the command. */
  datatype Inspection =
    | Missing(name: string)
    | TextInfo(name: string, stats: TextStats)
    | ImageInfo(name: string)
    | CodeInfo(name: string, lines: nat, classes: nat)
    | NameOnly(name: string)

  /** `info(input)`, given whether a name exists under the root and the text
      of the named file. */
  function Info(input: string, fileExists: string -> bool, contents: string): (r: Result<Inspection, ParseError>)
    ensures r == Err(NoTargetMarker) <==> '<' !in input
    ensures r == Err(NoExtension) <==>
      '<' in input && fileExists(TargetName(input).value) && '.' !in TargetName(input).value
    ensures '<' in input && !fileExists(TargetName(input).value) ==> r == Ok(Missing(TargetName(input).value))
    ensures r.Ok? ==> r.value.name == TargetName(input).value
  {
    match TargetName(input)
    case Err(e) => Err(e)
    case Ok(name) =>
      if !fileExists(name) then Ok(Missing(name))
      else
        match Extension(name)
        case Err(e) => Err(e)
        case Ok(ext) =>
          match KindOf(ext)
          case TextFile => Ok(TextInfo(name, TextMetrics(contents)))
          case ImageFile => Ok(ImageInfo(name))
          case CodeFile =>
            var lines := Lines(contents);
            Ok(CodeInfo(name, |lines|, ClassCount(lines)))
          case OtherFile => Ok(NameOnly(name))
  }
}
