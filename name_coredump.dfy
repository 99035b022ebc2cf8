/**
 * `name_coredump.py`: the clean-up of a report's text, the register block
 * cut out of it, and the cluster name assembled from the crash signature
 * and a hash of that block. The two regular-expression searches and SHA-1
 * are inputs, as functions of the text they are applied to.
 */
module NameCoredump {
  import opened Wrappers
  import Text
  import Lines
  import Markers

  const RegistersStart := "================== CURRENT THREAD REGISTERS ==================="
  const RegistersEnd := "==================== CURRENT THREAD STACK ====================="

  /** The stripped lines that are not blank, in order. */
  function Cleaned(lines: seq<string>): (r: seq<string>)
    ensures |r| <= |lines|
    ensures forall k :: 0 <= k < |r| ==> r[k] != [] && Text.Stripped(r[k])
  {
    if lines == [] then []
    else
      var init := Cleaned(lines[..|lines| - 1]);
      var line := Text.Strip(lines[|lines| - 1]);
      if line != [] then init + [line] else init
  }

  /** The text `preprocess_content` returns: the cleaned lines joined by "\n". */
  function Preprocessed(content: string): string {
    Text.Join(Cleaned(Lines.SplitLines(content)), "\n")
  }

  /**
   * `preprocess_content`. Its `re.sub` with an empty pattern and an empty
   * replacement leaves the text as it is, so the work is the line loop.
   */
  method PreprocessContent(content: string) returns (r: string)
    ensures r == Preprocessed(content)
  {
    var lines := Lines.SplitLines(content);
    var processed: seq<string> := [];
    var i: nat := 0;
    while i < |lines|
      invariant 0 <= i <= |lines|
      invariant processed == Cleaned(lines[..i])
    {
      assert lines[..i + 1][..i] == lines[..i];
      var line := Text.Strip(lines[i]);
      if line != [] {
        processed := processed + [line];
      }
      i := i + 1;
    }
    assert lines[..i] == lines;
    r := Text.Join(processed, "\n");
  }

  /** Cleaned lines of proper lines are proper lines. */
  lemma {:induction false} CleanedNoBreak(lines: seq<string>)
    requires forall k :: 0 <= k < |lines| ==> Lines.NoBreak(lines[k])
    ensures forall k :: 0 <= k < |Cleaned(lines)| ==> Lines.NoBreak(Cleaned(lines)[k])
  {
    if lines != [] {
      var init := lines[..|lines| - 1];
      CleanedNoBreak(init);
      Lines.StripNoBreak(lines[|lines| - 1]);
    }
  }

  /** Lines that are already non-blank and stripped are kept as they are. */
  lemma {:induction false} CleanedOfClean(lines: seq<string>)
    requires forall k :: 0 <= k < |lines| ==> lines[k] != [] && Text.Stripped(lines[k])
    ensures Cleaned(lines) == lines
  {
    if lines != [] {
      var init := lines[..|lines| - 1];
      CleanedOfClean(init);
      Text.StripOfStripped(lines[|lines| - 1]);
      assert lines == init + [lines[|lines| - 1]];
    }
  }

  /** The clean text's lines are exactly the cleaned lines: none blank, none with whitespace at either end. */
  lemma PreprocessedLines(content: string)
    ensures Lines.SplitLines(Preprocessed(content)) == Cleaned(Lines.SplitLines(content))
    ensures forall k :: 0 <= k < |Lines.SplitLines(Preprocessed(content))| ==>
      var line := Lines.SplitLines(Preprocessed(content))[k]; line != [] && Text.Stripped(line)
  {
    var c := Cleaned(Lines.SplitLines(content));
    CleanedNoBreak(Lines.SplitLines(content));
    Lines.SplitLinesJoin(c);
  }

  /** Cleaning a clean text changes nothing. */
  lemma PreprocessIdempotent(content: string)
    ensures Preprocessed(Preprocessed(content)) == Preprocessed(content)
  {
    PreprocessedLines(content);
    CleanedOfClean(Cleaned(Lines.SplitLines(content)));
  }

  /**
   * `extract_register_block`: the stripped text between the first
   * registers marker and the first stack marker from there on; None when
   * either is missing.
   */
  function ExtractRegisterBlock(content: string): (r: Option<string>)
    ensures (forall i :: !Text.OccursAt(content, RegistersStart, i)) ==> r.None?
    ensures forall i | Markers.FirstAt(content, RegistersStart, 0, i) ::
      (forall j :: i <= j ==> !Text.OccursAt(content, RegistersEnd, j)) ==> r.None?
    ensures forall i, j | Markers.FirstAt(content, RegistersStart, 0, i) && Markers.FirstAt(content, RegistersEnd, i, j) ::
      r == Some(Text.Strip(Markers.Slice(content, i + |RegistersStart|, j)))
  {
    Markers.BetweenCases(content, RegistersStart, RegistersEnd);
    Markers.Between(content, RegistersStart, RegistersEnd)
  }

  /** The groups the stack-frame pattern captures: function, path and line. */
  datatype Frame = Frame(functionName: string, path: string, line: string)

  /** What reading the report file gives. */
  datatype Source = Read(text: string) | FileNotFound | ReadFailed(message: string)

  /** The crash signature: exception cause, function, file base name and line, each when found. */
  datatype Signature = Signature(exception: Option<string>, functionName: Option<string>, file: Option<string>, line: Option<string>)

  /** `found_data` after the two searches; the frame's groups are stripped and the path cut to its base name. */
  function SignatureOf(exception: Option<string>, frame: Option<Frame>): Signature {
    match frame
    case None => Signature(exception, None, None, None)
    case Some(f) => Signature(exception, Some(Text.Strip(f.functionName)), Some(Text.Basename(Text.Strip(f.path))), Some(Text.Strip(f.line)))
  }

  /** `all(found_data.values())`: all four found and none empty. */
  predicate Complete(s: Signature) {
    && s.exception.Some? && s.exception.value != ""
    && s.functionName.Some? && s.functionName.value != ""
    && s.file.Some? && s.file.value != ""
    && s.line.Some? && s.line.value != ""
  }

  /** Python's `s[:n]`. */
  function Take(s: string, n: nat): (r: string)
    ensures |r| == if |s| < n then |s| else n
    ensures r == s[..|r|]
  {
    if |s| < n then s else s[..n]
  }

  /** The name of a crash with a complete signature and a register block. */
  function SignatureName(s: Signature, block: string, sha1Hex: string -> string): string
    requires Complete(s)
  {
    s.exception.value + "_" + s.functionName.value + "_" + s.file.value + "_" + s.line.value
    + "_REGS-HASH-" + Take(sha1Hex(block), 10)
  }

  /**
   * `generate_cluster_name`. `exception` and `frame` give the first match
   * of each pattern in a text; `sha1Hex` the hex SHA-1 of a text's UTF-8
   * bytes.
   */
  function ClusterName(filepath: string, source: Source, exception: string -> Option<string>,
                       frame: string -> Option<Frame>, sha1Hex: string -> string): (r: string)
    ensures source.FileNotFound? ==> r == "Error_FileNotFound: " + filepath
    ensures source.ReadFailed? ==> r == "Error_General: " + source.message
    ensures source.Read? ==>
      var content := Preprocessed(source.text);
      var block := ExtractRegisterBlock(content);
      var s := SignatureOf(exception(content), frame(content));
      && (block.None? || block.value == "" ==> r == "Error_CouldNotParseRegisterBlock")
      && (block.Some? && block.value != "" && Complete(s) ==> r == SignatureName(s, block.value, sha1Hex))
      && (block.Some? && block.value != "" && !Complete(s) ==> r == "Error_CouldNotParseSignature")
  {
    match source
    case FileNotFound => "Error_FileNotFound: " + filepath
    case ReadFailed(message) => "Error_General: " + message
    case Read(text) =>
      var content := Preprocessed(text);
      var s := SignatureOf(exception(content), frame(content));
      var block := ExtractRegisterBlock(content);
      if block.None? || block.value == "" then "Error_CouldNotParseRegisterBlock"
      else if Complete(s) then SignatureName(s, block.value, sha1Hex)
      else "Error_CouldNotParseSignature"
  }

  /** A named crash ends with "-" and the first ten hex digits of its register block's hash, which the name gives back. */
  lemma NameEndsWithHash(s: Signature, block: string, sha1Hex: string -> string)
    requires Complete(s) && |sha1Hex(block)| >= 10
    ensures var name := SignatureName(s, block, sha1Hex);
      && |name| > 11
      && name[|name| - 11..] == "-" + sha1Hex(block)[..10]
  {
  }
}
