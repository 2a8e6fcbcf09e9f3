/** The submission loop of the bowtie script: for every input fastq file it
    fills the `params` dictionary with the read file and the alignment file,
    expands the bowtie command template, and submits it with `qsub` under
    the job name `bowtie_parts` and a 4 GB memory request. */
module BowtieParts {
  import opened Text
  import opened Paths
  import opened Scheduler

  /** The job name the bowtie script's `qsub` line carries. */
  const JobName: string := "bowtie_parts"

  /** The memory request, in GB, of every alignment job. */
  const MemoryGb: int := 4

  /** The keys of the `params` dictionary: 'index_dir', 'index_name',
      'reads' and 'alignments'. */
  datatype Key = IndexDirKey | IndexNameKey | ReadsKey | AlignmentsKey

  /** `params` before the loop: the directory and the name of the index. */
  function IndexParams(index: string): (params: map<Key, string>)
  {
    map[IndexDirKey := Dirname(index), IndexNameKey := Basename(index)]
  }

  /** All four keys the command template refers to are present. */
  predicate HasTemplateKeys(params: map<Key, string>)
  {
    IndexDirKey in params && IndexNameKey in params && ReadsKey in params && AlignmentsKey in params
  }

  /** `bowtie_cmd % params` */
  function AlignCommand(params: map<Key, string>): (cmd: string)
    requires HasTemplateKeys(params)
  {
    "BOWTIE_INDEXES=" + params[IndexDirKey]
      + " bowtie -n 3 -l 100 --best --nomaqround --norc -k 1 --quiet "
      + params[IndexNameKey] + " " + params[ReadsKey] + " " + params[AlignmentsKey]
  }

  /** `os.path.join(output_dir, stem + '.aln')` */
  function AlignmentFile(outputDir: string, infile: string): (path: string)
  {
    PathJoin(outputDir, FileStem(infile) + ".aln")
  }

  /** `os.path.join(log_dir, stem + '.log')` */
  function LogFile(logDir: string, infile: string): (path: string)
  {
    PathJoin(logDir, FileStem(infile) + ".log")
  }

  /** `params` while a file is processed: the entries of base with the
      read file and the alignment file set. */
  function FileParams(base: map<Key, string>, infile: string, alignFile: string): (params: map<Key, string>)
    ensures params.Keys == base.Keys + {ReadsKey, AlignmentsKey}
    ensures params[ReadsKey] == infile && params[AlignmentsKey] == alignFile
    ensures forall key :: key in base && key != ReadsKey && key != AlignmentsKey ==> params[key] == base[key]
  {
    base[ReadsKey := infile][AlignmentsKey := alignFile]
  }

  /** Setting the file entries of `params`, which holds either base or
      base with an earlier file's entries, gives base with the new file's
      entries. */
  lemma Reassigned(params: map<Key, string>, base: map<Key, string>, first: bool,
                   infile: string, alignFile: string, infile': string, alignFile': string)
    requires first ==> params == base
    requires !first ==> params == FileParams(base, infile, alignFile)
    ensures params[ReadsKey := infile'][AlignmentsKey := alignFile'] == FileParams(base, infile', alignFile')
  {
  }

  /** The `params` the bowtie command of infile is expanded from. */
  function ParamsFor(index: string, outputDir: string, infile: string): (params: map<Key, string>)
    ensures HasTemplateKeys(params)
  {
    FileParams(IndexParams(index), infile, AlignmentFile(outputDir, infile))
  }

  /** The `qsub` line submitted for infile. */
  function Submission(queue: string, index: string, outputDir: string, logDir: string, infile: string): (line: string)
  {
    SgeCommand(queue, LogFile(logDir, infile), AlignCommand(ParamsFor(index, outputDir, infile)),
               Some(MemoryGb), JobName)
  }

  /** The loop over the input files: returns the `qsub` lines in the order
      of the files, and `params` as the loop leaves it. */
  method SubmitAll(queue: string, index: string, inputs: seq<string>, outputDir: string, logDir: string)
    returns (lines: seq<string>, params: map<Key, string>)
    ensures |lines| == |inputs|
    ensures forall k :: 0 <= k < |inputs| ==> lines[k] == Submission(queue, index, outputDir, logDir, inputs[k])
    ensures params == if |inputs| == 0 then IndexParams(index)
                      else ParamsFor(index, outputDir, inputs[|inputs| - 1])
  {
    params := IndexParams(index);
    ghost var base := params;
    lines := [];
    for i := 0 to |inputs|
      invariant |lines| == i
      invariant forall k :: 0 <= k < i ==> lines[k] == Submission(queue, index, outputDir, logDir, inputs[k])
      invariant i == 0 ==> params == base
      invariant i > 0 ==> params == FileParams(base, inputs[i - 1], AlignmentFile(outputDir, inputs[i - 1]))
    {
      var infile := inputs[i];
      var outfile := AlignmentFile(outputDir, infile);
      var logfile := LogFile(logDir, infile);
      ghost var previous := if i == 0 then "" else inputs[i - 1];
      Reassigned(params, base, i == 0, previous, AlignmentFile(outputDir, previous), infile, outfile);
      params := params[ReadsKey := infile];
      params := params[AlignmentsKey := outfile];
      var line := SgeCommand(queue, logfile, AlignCommand(params), Some(MemoryGb), JobName);
      forall k | 0 <= k < i + 1
        ensures (lines + [line])[k] == Submission(queue, index, outputDir, logDir, inputs[k])
      {
        if k < i {
          assert (lines + [line])[k] == lines[k];
        }
      }
      lines := lines + [line];
    }
  }

  /** The two extensions start with a dot and hold no other dot and no
      slash. */
  lemma ExtensionFacts()
    ensures |".aln"| == 4 && ".aln"[0] == '.' && '.' !in ".aln"[1..] && '/' !in ".aln"
    ensures |".log"| == 4 && ".log"[0] == '.' && '.' !in ".log"[1..] && '/' !in ".log"
  {
    assert ".aln"[1] == 'a' && ".aln"[2] == 'l' && ".aln"[3] == 'n';
    assert ".log"[1] == 'l' && ".log"[2] == 'o' && ".log"[3] == 'g';
  }

  /** The index entries of `params` are the directory and the name of the
      index path: the name is its last component and the directory a
      prefix of it. */
  lemma IndexEntries(index: string)
    ensures IndexParams(index).Keys == {IndexDirKey, IndexNameKey}
    ensures var name := IndexParams(index)[IndexNameKey];
      '/' !in name && |name| <= |index| && index[|index| - |name|..] == name
    ensures var dir := IndexParams(index)[IndexDirKey];
      |dir| <= |index| && dir == index[..|dir|]
  {
  }

  /** The alignment and log files of an input sit in their directories
      under the input's stem with the extensions `.aln` and `.log`, and
      their own stem is the input's stem again. */
  lemma OutputNames(outputDir: string, logDir: string, infile: string)
    ensures Basename(AlignmentFile(outputDir, infile)) == FileStem(infile) + ".aln"
    ensures Basename(LogFile(logDir, infile)) == FileStem(infile) + ".log"
    ensures FileStem(AlignmentFile(outputDir, infile)) == FileStem(infile)
    ensures FileStem(LogFile(logDir, infile)) == FileStem(infile)
  {
    var stem := FileStem(infile);
    ExtensionFacts();
    FileStemHasNoSlash(infile);
    BasenameOfJoin(outputDir, stem + ".aln");
    BasenameOfJoin(logDir, stem + ".log");
    ExtensionFacts();
    StemOfSuffix(stem, ".aln");
    StemOfSuffix(stem, ".log");
  }

  /** The directories of the alignment and log files are the output and log
      directories, when those are given without a trailing slash. */
  lemma OutputDirectories(outputDir: string, logDir: string, infile: string)
    requires |outputDir| > 0 && outputDir[|outputDir| - 1] != '/'
    requires |logDir| > 0 && logDir[|logDir| - 1] != '/'
    ensures Dirname(AlignmentFile(outputDir, infile)) == outputDir
    ensures Dirname(LogFile(logDir, infile)) == logDir
  {
    var stem := FileStem(infile);
    ExtensionFacts();
    FileStemHasNoSlash(infile);
    DirnameOfJoin(outputDir, stem + ".aln");
    DirnameOfJoin(logDir, stem + ".log");
  }

  /** The last two words of the bowtie command are the read file and the
      alignment file, when neither contains a space. */
  lemma AlignCommandEndsWithFiles(params: map<Key, string>)
    requires HasTemplateKeys(params)
    requires ' ' !in params[ReadsKey] && ' ' !in params[AlignmentsKey]
    ensures var words := Split(AlignCommand(params), ' ');
      |words| >= 3 && words[|words| - 2] == params[ReadsKey] && words[|words| - 1] == params[AlignmentsKey]
  {
    var front := "BOWTIE_INDEXES=" + params[IndexDirKey]
      + " bowtie -n 3 -l 100 --best --nomaqround --norc -k 1 --quiet "
      + params[IndexNameKey];
    var readFile, alignFile := params[ReadsKey], params[AlignmentsKey];
    assert AlignCommand(params) == front + [' '] + readFile + [' '] + alignFile;
    LastTwoWords(front, readFile, alignFile);
  }

  /** The last two words of a line ending in two space-free words. */
  lemma LastTwoWords(front: string, a: string, b: string)
    requires ' ' !in a && ' ' !in b
    ensures var words := Split(front + [' '] + a + [' '] + b, ' ');
      |words| >= 3 && words[|words| - 2] == a && words[|words| - 1] == b
  {
    SplitSnoc(front + [' '] + a, ' ', b);
    SplitSnoc(front, ' ', a);
  }

  /** The bowtie command starts with a letter and ends with the alignment
      file's extension, so the quoting leaves it as it is. */
  lemma SubmittedAsIs(index: string, outputDir: string, infile: string)
    ensures var cmd := AlignCommand(ParamsFor(index, outputDir, infile));
      Quote(cmd) == [DoubleQuote] + cmd + [DoubleQuote]
  {
    var params := ParamsFor(index, outputDir, infile);
    var cmd := AlignCommand(params);
    var out := AlignmentFile(outputDir, infile);
    OutputNames(outputDir, "", infile);
    assert out[|out| - 1] == 'n';
    assert cmd[|cmd| - |out|..] == out;
    assert cmd[0] == 'B';
    QuoteUnquoted(cmd);
  }
}
