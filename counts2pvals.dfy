/** The submission loop of the counts-to-p-values script: for every input
    csv file it names the sample after the file, places `sample.pvals.csv`
    in the output directory and `sample.pvals.log` in the log directory, and
    submits `python <script_dir>/counts2pvals.py -i <in> -o <out>` with
    `qsub` under the job name `counts2pval`. */
module CountsToPvals {
  import opened Text
  import opened Paths
  import opened Scheduler

  /** The job name the script's `qsub` line carries. */
  const JobName: string := "counts2pval"

  /** `'.'.join(os.path.basename(infile).split('.')[:-1])` */
  function Sample(infile: string): (sample: string)
    ensures '/' !in sample
  {
    FileStemHasNoSlash(infile);
    FileStem(infile)
  }

  /** `'.'.join([sample, 'pvals', ext])` */
  function SampleFileName(sample: string, ext: string): (name: string)
  {
    Join([sample, "pvals", ext], '.')
  }

  /** `os.path.join(output_dir, '.'.join([sample, 'pvals', 'csv']))` */
  function OutputFile(outputDir: string, infile: string): (path: string)
  {
    PathJoin(outputDir, SampleFileName(Sample(infile), "csv"))
  }

  /** `os.path.join(log_dir, '.'.join([sample, 'pvals', 'log']))` */
  function LogFile(logDir: string, infile: string): (path: string)
  {
    PathJoin(logDir, SampleFileName(Sample(infile), "log"))
  }

  /** `os.path.dirname(script)`: the directory the script was started from. */
  function ScriptDir(script: string): (dir: string)
    ensures |dir| <= |script| && dir == script[..|dir|]
  {
    Dirname(script)
  }

  /** `'python %s/counts2pvals.py -i %s -o %s' % (script_dir, in, out)` */
  function PvalsCommand(scriptDir: string, inFile: string, outFile: string): (cmd: string)
  {
    "python " + scriptDir + "/counts2pvals.py -i " + inFile + " -o " + outFile
  }

  /** The `qsub` line submitted for infile. */
  function Submission(queue: string, script: string, outputDir: string, logDir: string,
                      mem: Option<int>, infile: string): (line: string)
  {
    SgeCommand(queue, LogFile(logDir, infile),
               PvalsCommand(ScriptDir(script), infile, OutputFile(outputDir, infile)), mem, JobName)
  }

  /** The strings line(x) for the inputs x, in order. */
  function Lines(line: string -> string, inputs: seq<string>): (lines: seq<string>)
    ensures |lines| == |inputs|
    ensures forall k :: 0 <= k < |inputs| ==> lines[k] == line(inputs[k])
  {
    if |inputs| == 0 then [] else Lines(line, inputs[..|inputs| - 1]) + [line(inputs[|inputs| - 1])]
  }

  /** The `qsub` lines of the loop, in the order of the input files. */
  function Submissions(queue: string, script: string, outputDir: string, logDir: string,
                       mem: Option<int>, inputs: seq<string>): (lines: seq<string>)
    ensures |lines| == |inputs|
    ensures forall k :: 0 <= k < |inputs| ==>
      lines[k] == Submission(queue, script, outputDir, logDir, mem, inputs[k])
  {
    Lines(infile => Submission(queue, script, outputDir, logDir, mem, infile), inputs)
  }

  /** The two extensions: "csv" and "log" hold neither a dot nor a slash. */
  lemma ExtensionFacts()
    ensures |"csv"| == 3 && '.' !in "csv" && '/' !in "csv" && ' ' !in "csv"
    ensures |"log"| == 3 && '.' !in "log" && '/' !in "log" && ' ' !in "log"
    ensures |"pvals"| == 5 && '.' !in "pvals" && '/' !in "pvals" && ' ' !in "pvals"
  {
    assert "csv"[0] == 'c' && "csv"[1] == 's' && "csv"[2] == 'v';
    assert "log"[0] == 'l' && "log"[1] == 'o' && "log"[2] == 'g';
    assert "pvals"[0] == 'p' && "pvals"[1] == 'v' && "pvals"[2] == 'a' && "pvals"[3] == 'l' && "pvals"[4] == 's';
  }

  /** A sample file name is the sample, ".pvals." and the extension. */
  lemma SampleFileNameSpelled(sample: string, ext: string)
    ensures SampleFileName(sample, ext) == sample + ".pvals." + ext
  {
    var tail := Join(["pvals", ext], '.');
    assert ["pvals", ext][1..] == [ext];
    assert Join([ext], '.') == ext;
    assert tail == "pvals" + ['.'] + ext;
    assert [sample, "pvals", ext][1..] == ["pvals", ext];
    assert SampleFileName(sample, ext) == sample + ['.'] + tail;
    assert sample + ['.'] + ("pvals" + ['.'] + ext) == sample + ".pvals." + ext;
  }

  /** A sample file name splits at its dots into the sample's pieces,
      "pvals" and the extension. */
  lemma SampleFileNameSplits(sample: string, ext: string)
    requires '.' !in ext
    ensures Split(SampleFileName(sample, ext), '.') == Split(sample, '.') + ["pvals", ext]
  {
    ExtensionFacts();
    var inner := sample + ['.'] + "pvals";
    SampleFileNameSpelled(sample, ext);
    assert SampleFileName(sample, ext) == inner + ['.'] + ext;
    SplitSnoc(inner, '.', ext);
    SplitSnoc(sample, '.', "pvals");
  }

  /** Stripping two extensions from a sample file name gives the sample
      back. */
  lemma SampleFileNameStems(sample: string, ext: string)
    requires '.' !in ext
    ensures Stem(Stem(SampleFileName(sample, ext))) == sample
  {
    ExtensionFacts();
    var inner := sample + ['.'] + "pvals";
    SampleFileNameSpelled(sample, ext);
    assert SampleFileName(sample, ext) == inner + ['.'] + ext;
    StemOfExtension(inner, ext);
    StemOfExtension(sample, "pvals");
  }

  /** A sample file name has no slash and is never empty. */
  lemma SampleFileNameIsName(sample: string, ext: string)
    requires '/' !in sample && '/' !in ext
    ensures |SampleFileName(sample, ext)| > 0 && '/' !in SampleFileName(sample, ext)
  {
    ExtensionFacts();
    SampleFileNameSpelled(sample, ext);
    var name := SampleFileName(sample, ext);
    forall k | 0 <= k < |name|
      ensures name[k] != '/'
    {
      if k < |sample| {
        assert name[k] == sample[k];
      } else if k >= |sample| + 7 {
        assert name[k] == ext[k - |sample| - 7];
      } else {
        assert name[|sample|..|sample| + 7] == ".pvals.";
      }
    }
  }

  /** A sample file joined to a directory has the sample file name as its
      basename, and stripping two extensions from it gives the sample. */
  lemma JoinedSampleFile(dir: string, sample: string, ext: string)
    requires '/' !in sample && '/' !in ext && '.' !in ext
    ensures Basename(PathJoin(dir, SampleFileName(sample, ext))) == sample + ".pvals." + ext
    ensures Stem(Stem(Basename(PathJoin(dir, SampleFileName(sample, ext))))) == sample
  {
    SampleFileNameIsName(sample, ext);
    BasenameOfJoin(dir, SampleFileName(sample, ext));
    SampleFileNameSpelled(sample, ext);
    SampleFileNameStems(sample, ext);
  }

  /** The literal suffixes of the two file names. */
  lemma Suffixes(sample: string)
    ensures sample + ".pvals." + "csv" == sample + ".pvals.csv"
    ensures sample + ".pvals." + "log" == sample + ".pvals.log"
  {
    assert ".pvals." + "csv" == ".pvals.csv";
    assert ".pvals." + "log" == ".pvals.log";
  }

  /** The result file of an input is `sample.pvals.csv` in the output
      directory, its log `sample.pvals.log` in the log directory, and
      stripping two extensions from either gives the sample back. */
  lemma OutputNames(outputDir: string, logDir: string, infile: string)
    ensures Basename(OutputFile(outputDir, infile)) == Sample(infile) + ".pvals.csv"
    ensures Basename(LogFile(logDir, infile)) == Sample(infile) + ".pvals.log"
    ensures Stem(Stem(Basename(OutputFile(outputDir, infile)))) == Sample(infile)
    ensures Stem(Stem(Basename(LogFile(logDir, infile)))) == Sample(infile)
  {
    var sample := Sample(infile);
    ExtensionFacts();
    JoinedSampleFile(outputDir, sample, "csv");
    JoinedSampleFile(logDir, sample, "log");
    Suffixes(sample);
  }

  /** The directories of the result and log files are the output and log
      directories, when those are given without a trailing slash. */
  lemma OutputDirectories(outputDir: string, logDir: string, infile: string)
    requires |outputDir| > 0 && outputDir[|outputDir| - 1] != '/'
    requires |logDir| > 0 && logDir[|logDir| - 1] != '/'
    ensures Dirname(OutputFile(outputDir, infile)) == outputDir
    ensures Dirname(LogFile(logDir, infile)) == logDir
  {
    var sample := Sample(infile);
    ExtensionFacts();
    SampleFileNameIsName(sample, "csv");
    SampleFileNameIsName(sample, "log");
    DirnameOfJoin(outputDir, SampleFileName(sample, "csv"));
    DirnameOfJoin(logDir, SampleFileName(sample, "log"));
  }

  /** Six words joined by spaces. */
  lemma Spaced(a: string, b: string, c: string, d: string, e: string, f: string)
    ensures Join([a, b, c, d, e, f], ' ')
      == a + [' '] + b + [' '] + c + [' '] + d + [' '] + e + [' '] + f
  {
    var j5 := Join([e, f], ' ');
    assert [e, f][1..] == [f];
    assert Join([f], ' ') == f;
    assert j5 == e + [' '] + f;
    var j4 := Join([d, e, f], ' ');
    assert [d, e, f][1..] == [e, f];
    assert j4 == d + [' '] + j5;
    var j3 := Join([c, d, e, f], ' ');
    assert [c, d, e, f][1..] == [d, e, f];
    assert j3 == c + [' '] + j4;
    var j2 := Join([b, c, d, e, f], ' ');
    assert [b, c, d, e, f][1..] == [c, d, e, f];
    assert j2 == b + [' '] + j3;
    assert [a, b, c, d, e, f][1..] == [b, c, d, e, f];
    assert Join([a, b, c, d, e, f], ' ') == a + [' '] + j2;
  }

  /** Regrouping the command line around the spaces. */
  lemma RegroupCommand(py: string, sd: string, script: string, i: string, o: string,
                       inFile: string, outFile: string)
    ensures py + [' '] + sd + (script + [' '] + i + [' ']) + inFile + ([' '] + o + [' ']) + outFile
      == py + [' '] + (sd + script) + [' '] + i + [' '] + inFile + [' '] + o + [' '] + outFile
  {
  }

  /** The command's words are `python`, the script path, `-i`, the input,
      `-o` and the output, when none of the three paths contains a space. */
  lemma PvalsCommandWords(scriptDir: string, inFile: string, outFile: string)
    requires ' ' !in scriptDir && ' ' !in inFile && ' ' !in outFile
    ensures Split(PvalsCommand(scriptDir, inFile, outFile), ' ')
      == ["python", scriptDir + "/counts2pvals.py", "-i", inFile, "-o", outFile]
  {
    var py := "/counts2pvals.py";
    var script := scriptDir + py;
    assert "python " == "python" + [' '];
    assert "/counts2pvals.py -i " == py + [' '] + "-i" + [' '];
    assert " -o " == [' '] + "-o" + [' '];
    assert PvalsCommand(scriptDir, inFile, outFile)
      == "python" + [' '] + scriptDir + (py + [' '] + "-i" + [' ']) + inFile + ([' '] + "-o" + [' ']) + outFile;
    RegroupCommand("python", scriptDir, py, "-i", "-o", inFile, outFile);
    Spaced("python", script, "-i", inFile, "-o", outFile);
    assert py[0] == '/' && py[1] == 'c' && py[2] == 'o' && py[3] == 'u' && py[4] == 'n' && py[5] == 't'
      && py[6] == 's' && py[7] == '2' && py[8] == 'p' && py[9] == 'v' && py[10] == 'a' && py[11] == 'l'
      && py[12] == 's' && py[13] == '.' && py[14] == 'p' && py[15] == 'y';
    assert ' ' !in script by {
      forall k | 0 <= k < |script| ensures script[k] != ' ' {
        if k >= |scriptDir| { assert script[k] == py[k - |scriptDir|]; }
      }
    }
    assert "python"[0] == 'p' && "python"[1] == 'y' && "python"[2] == 't' && "python"[3] == 'h'
      && "python"[4] == 'o' && "python"[5] == 'n';
    assert "-i"[0] == '-' && "-i"[1] == 'i' && "-o"[0] == '-' && "-o"[1] == 'o';
    SplitJoin(["python", script, "-i", inFile, "-o", outFile], ' ');
  }

  /** The command starts with a letter and ends with the result file's
      extension, so the quoting leaves it as it is. */
  lemma SubmittedAsIs(script: string, outputDir: string, infile: string)
    ensures var cmd := PvalsCommand(ScriptDir(script), infile, OutputFile(outputDir, infile));
      Quote(cmd) == [DoubleQuote] + cmd + [DoubleQuote]
  {
    var out := OutputFile(outputDir, infile);
    var cmd := PvalsCommand(ScriptDir(script), infile, out);
    OutputNames(outputDir, "", infile);
    var name := Basename(out);
    assert name[|name| - 1] == 'v';
    assert out[|out| - 1] == 'v';
    assert cmd[|cmd| - |out|..] == out;
    assert cmd[0] == 'p';
    QuoteUnquoted(cmd);
  }
}
