/** What `submit_to_LSF` and `submit_to_SGE` build before handing a job to
    the cluster: the quoted command, the `bsub` and `qsub` command lines with
    their optional memory request, and the job id read from `bsub`'s reply. */
module Scheduler {
  import opened Text

  datatype Option<T> = None | Some(value: T)

  /** The double quote. */
  const DoubleQuote: char := '"'

  /** `'"%s"' % cmd.strip('"')`: the command without the double quotes at
      its ends, wrapped in one pair of double quotes. */
  function Quote(cmd: string): (q: string)
    ensures |q| >= 2 && q[0] == DoubleQuote && q[|q| - 1] == DoubleQuote
  {
    [DoubleQuote] + Strip(cmd, DoubleQuote) + [DoubleQuote]
  }

  /** A leading c is stripped. */
  lemma StripLeadingCons(c: char, u: string)
    ensures StripLeading([c] + u, c) == StripLeading(u, c)
  {
    assert ([c] + u)[1..] == u;
  }

  /** A trailing c is stripped. */
  lemma StripTrailingSnoc(u: string, c: char)
    ensures StripTrailing(u + [c], c) == StripTrailing(u, c)
  {
    assert (u + [c])[..|u|] == u;
  }

  /** Stripping c from a string framed by c gives back a string that
      neither starts nor ends with c. */
  lemma StripFramed(t: string, c: char)
    requires |t| > 0 ==> t[0] != c && t[|t| - 1] != c
    ensures Strip([c] + t + [c], c) == t
  {
    assert [c] + t + [c] == [c] + (t + [c]);
    StripLeadingCons(c, t + [c]);
    if |t| > 0 {
      assert (t + [c])[0] == t[0];
      assert StripLeading(t + [c], c) == t + [c];
    } else {
      assert t + [c] == [c] + t;
      StripLeadingCons(c, t);
    }
    StripTrailingSnoc(t, c);
    StripUnchanged(t, c);
  }

  /** Quoting twice gives the same command line as quoting once. */
  lemma QuoteIdempotent(cmd: string)
    ensures Quote(Quote(cmd)) == Quote(cmd)
  {
    var t := Strip(cmd, DoubleQuote);
    StripKeeps(cmd, DoubleQuote);
    StripFramed(t, DoubleQuote);
  }

  /** A command that neither starts nor ends with a double quote is quoted
      as it is. */
  lemma QuoteUnquoted(cmd: string)
    requires |cmd| > 0 ==> cmd[0] != DoubleQuote && cmd[|cmd| - 1] != DoubleQuote
    ensures Quote(cmd) == [DoubleQuote] + cmd + [DoubleQuote]
  {
    StripUnchanged(cmd, DoubleQuote);
  }

  /** Two commands are submitted alike exactly when they agree once their
      outer double quotes are stripped. */
  lemma QuoteInjective(cmd: string, cmd': string)
    ensures Quote(cmd) == Quote(cmd') <==> Strip(cmd, DoubleQuote) == Strip(cmd', DoubleQuote)
  {
    var q, q' := Quote(cmd), Quote(cmd');
    if q == q' {
      assert q[1..|q| - 1] == Strip(cmd, DoubleQuote);
      assert q'[1..|q'| - 1] == Strip(cmd', DoubleQuote);
    }
  }

  /** ` -R "rusage[mem=N]"` when a memory amount is given, else nothing. */
  function LsfMemory(mem: Option<int>): (clause: string)
    ensures clause == "" <==> mem.None?
  {
    match mem
    case None => ""
    case Some(m) => " -R \"rusage[mem=" + FormatInt(m) + "]\""
  }

  /** ` -l h_vmem=NG` when a memory amount is given, else nothing. */
  function SgeMemory(mem: Option<int>): (clause: string)
    ensures clause == "" <==> mem.None?
  {
    match mem
    case None => ""
    case Some(m) => " -l h_vmem=" + FormatInt(m) + "G"
  }

  /** The `bsub` command line: queue and output file, the optional memory
      request, then a space and the quoted command. */
  function LsfCommand(queue: string, outFile: string, cmd: string, mem: Option<int>): (line: string)
  {
    "bsub -q" + queue + " -o" + outFile + LsfMemory(mem) + " " + Quote(cmd)
  }

  /** The `qsub` command line: log file, the fixed flags, queue and job
      name, the optional memory request, then a space and the quoted
      command. */
  function SgeCommand(queue: string, logFile: string, cmd: string, mem: Option<int>, jobName: string): (line: string)
  {
    "qsub -o " + logFile + " -b y -V -j y -cwd -q " + queue + " -N " + jobName
      + SgeMemory(mem) + " " + Quote(cmd)
  }

  /** Equal strings with a common prefix agree after it. */
  lemma CancelPrefix(p: string, x: string, y: string)
    requires p + x == p + y
    ensures x == y
  {
    assert x == (p + x)[|p|..];
    assert y == (p + y)[|p|..];
  }

  /** Reads the memory request back from what follows the options of a
      `bsub` line: a clause starts with " -", the quoted command with " \"". */
  function LsfMemoryOf(tail: string): (mem: Option<int>)
  {
    if |tail| >= 16 && tail[1] == '-' then Some(ParseInt(Split(tail[16..], ']')[0])) else None
  }

  /** Reads the memory request back from what follows the options of a
      `qsub` line. */
  function SgeMemoryOf(tail: string): (mem: Option<int>)
  {
    if |tail| >= 11 && tail[1] == '-' then Some(ParseInt(Split(tail[11..], 'G')[0])) else None
  }

  /** Four strings joined left to right are the first followed by the
      other three. */
  lemma Regroup(p: string, m: string, sp: string, q: string)
    ensures p + m + sp + q == p + (m + sp + q)
  {
  }

  /** The digits of a memory clause are the first piece, cut at the
      character that closes them, of what follows the flag. */
  lemma ReadClause(flag: string, digits: string, close: string, sp: string, q: string)
    requires |close| >= 1 && close[0] !in digits
    ensures var t := flag + digits + close + sp + q;
      |flag| <= |t| && Split(t[|flag|..], close[0])[0] == digits
  {
    var t := flag + digits + close + sp + q;
    assert close == [close[0]] + close[1..];
    assert t[|flag|..] == digits + [close[0]] + (close[1..] + sp + q);
    FirstPieceOf(digits, close[0], close[1..] + sp + q);
  }

  /** Inserting a clause c between the options p and the quoted command q
      of a line built with an empty clause. */
  lemma InsertBeforeCommand(p: string, e: string, c: string, q: string)
    requires |e| == 0
    ensures var plain := p + e + " " + q;
      var k := |plain| - |q| - 1;
      0 <= k && p + c + " " + q == plain[..k] + c + plain[k..]
  {
    var plain := p + e + " " + q;
    assert |plain| - |q| - 1 == |p|;
    assert plain[..|p|] == p && plain[|p|..] == " " + q;
  }

  /** A `bsub` memory clause can be read back from the end of the line. */
  lemma LsfClauseRoundTrip(m: int, cmd: string)
    ensures LsfMemoryOf(LsfMemory(Some(m)) + " " + Quote(cmd)) == Some(m)
  {
    var flag, digits, close := " -R \"rusage[mem=", FormatInt(m), "]\"";
    var tail := flag + digits + close + " " + Quote(cmd);
    assert LsfMemory(Some(m)) + " " + Quote(cmd) == tail;
    assert |flag| == 16 && tail[1] == flag[1] == '-';
    assert close[0] == ']';
    FormatIntExcludes(m, ']');
    ReadClause(flag, digits, close, " ", Quote(cmd));
    ParseFormatInt(m);
  }

  /** The memory request can be read back from the end of a `bsub` line. */
  lemma LsfMemoryRoundTrip(mem: Option<int>, cmd: string)
    ensures LsfMemoryOf(LsfMemory(mem) + " " + Quote(cmd)) == mem
  {
    if mem.Some? {
      LsfClauseRoundTrip(mem.value, cmd);
    } else {
      var tail := LsfMemory(mem) + " " + Quote(cmd);
      assert tail[1] == Quote(cmd)[0];
    }
  }

  /** A `qsub` memory clause can be read back from the end of the line. */
  lemma SgeClauseRoundTrip(m: int, cmd: string)
    ensures SgeMemoryOf(SgeMemory(Some(m)) + " " + Quote(cmd)) == Some(m)
  {
    var flag, digits, close := " -l h_vmem=", FormatInt(m), "G";
    var tail := flag + digits + close + " " + Quote(cmd);
    assert SgeMemory(Some(m)) + " " + Quote(cmd) == tail;
    assert |flag| == 11 && tail[1] == flag[1] == '-';
    assert close[0] == 'G';
    FormatIntExcludes(m, 'G');
    ReadClause(flag, digits, close, " ", Quote(cmd));
    ParseFormatInt(m);
  }

  /** The memory request can be read back from the end of a `qsub` line. */
  lemma SgeMemoryRoundTrip(mem: Option<int>, cmd: string)
    ensures SgeMemoryOf(SgeMemory(mem) + " " + Quote(cmd)) == mem
  {
    if mem.Some? {
      SgeClauseRoundTrip(mem.value, cmd);
    } else {
      var tail := SgeMemory(mem) + " " + Quote(cmd);
      assert tail[1] == Quote(cmd)[0];
    }
  }

  /** For a given queue and output file, the `bsub` line determines the
      memory request and the command up to its outer double quotes. */
  lemma LsfCommandInjective(queue: string, outFile: string, cmd: string, mem: Option<int>,
                            cmd': string, mem': Option<int>)
    ensures LsfCommand(queue, outFile, cmd, mem) == LsfCommand(queue, outFile, cmd', mem')
            <==> mem == mem' && Strip(cmd, DoubleQuote) == Strip(cmd', DoubleQuote)
  {
    var p := "bsub -q" + queue + " -o" + outFile;
    QuoteInjective(cmd, cmd');
    Regroup(p, LsfMemory(mem), " ", Quote(cmd));
    Regroup(p, LsfMemory(mem'), " ", Quote(cmd'));
    var tail, tail' := LsfMemory(mem) + " " + Quote(cmd), LsfMemory(mem') + " " + Quote(cmd');
    if p + tail == p + tail' {
      CancelPrefix(p, tail, tail');
      LsfMemoryRoundTrip(mem, cmd);
      LsfMemoryRoundTrip(mem', cmd');
      CancelPrefix(LsfMemory(mem) + " ", Quote(cmd), Quote(cmd'));
    }
  }

  /** For a given queue, log file and job name, the `qsub` line determines
      the memory request and the command up to its outer double quotes. */
  lemma SgeCommandInjective(queue: string, logFile: string, jobName: string, cmd: string, mem: Option<int>,
                            cmd': string, mem': Option<int>)
    ensures SgeCommand(queue, logFile, cmd, mem, jobName) == SgeCommand(queue, logFile, cmd', mem', jobName)
            <==> mem == mem' && Strip(cmd, DoubleQuote) == Strip(cmd', DoubleQuote)
  {
    var p := "qsub -o " + logFile + " -b y -V -j y -cwd -q " + queue + " -N " + jobName;
    QuoteInjective(cmd, cmd');
    Regroup(p, SgeMemory(mem), " ", Quote(cmd));
    Regroup(p, SgeMemory(mem'), " ", Quote(cmd'));
    var tail, tail' := SgeMemory(mem) + " " + Quote(cmd), SgeMemory(mem') + " " + Quote(cmd');
    if p + tail == p + tail' {
      CancelPrefix(p, tail, tail');
      SgeMemoryRoundTrip(mem, cmd);
      SgeMemoryRoundTrip(mem', cmd');
      CancelPrefix(SgeMemory(mem) + " ", Quote(cmd), Quote(cmd'));
    }
  }

  /** With a memory request, the `bsub` line is the one without it with the
      request inserted after the options, before the quoted command. */
  lemma LsfCommandWithMemory(queue: string, outFile: string, cmd: string, m: int)
    ensures var plain := LsfCommand(queue, outFile, cmd, None);
      var k := |plain| - |Quote(cmd)| - 1;
      0 <= k && LsfCommand(queue, outFile, cmd, Some(m))
        == plain[..k] + LsfMemory(Some(m)) + plain[k..]
  {
    var p := "bsub -q" + queue + " -o" + outFile;
    assert LsfCommand(queue, outFile, cmd, None) == p + LsfMemory(None) + " " + Quote(cmd);
    assert LsfCommand(queue, outFile, cmd, Some(m)) == p + LsfMemory(Some(m)) + " " + Quote(cmd);
    InsertBeforeCommand(p, LsfMemory(None), LsfMemory(Some(m)), Quote(cmd));
  }

  /** With a memory request, the `qsub` line is the one without it with the
      request inserted after the job name, before the quoted command. */
  lemma SgeCommandWithMemory(queue: string, logFile: string, cmd: string, jobName: string, m: int)
    ensures var plain := SgeCommand(queue, logFile, cmd, None, jobName);
      var k := |plain| - |Quote(cmd)| - 1;
      0 <= k && SgeCommand(queue, logFile, cmd, Some(m), jobName)
        == plain[..k] + SgeMemory(Some(m)) + plain[k..]
  {
    var p := "qsub -o " + logFile + " -b y -V -j y -cwd -q " + queue + " -N " + jobName;
    assert SgeCommand(queue, logFile, cmd, None, jobName) == p + SgeMemory(None) + " " + Quote(cmd);
    assert SgeCommand(queue, logFile, cmd, Some(m), jobName) == p + SgeMemory(Some(m)) + " " + Quote(cmd);
    InsertBeforeCommand(p, SgeMemory(None), SgeMemory(Some(m)), Quote(cmd));
  }

  /** `out.split('<')[1].split('>')[0]`: the text after the first '<', up to
      the next '<' or '>'; None where Python's indexing fails, that is when
      there is no '<'. */
  function JobId(output: string): (id: Option<string>)
    ensures id.None? <==> '<' !in output
    ensures id.Some? ==> '<' !in id.value && '>' !in id.value
    ensures id.Some? ==>
      var after := output[IndexOf(output, '<') + 1..];
      |id.value| <= |after| && id.value == after[..|id.value|]
      && (|id.value| == |after| || after[|id.value|] == '<' || after[|id.value|] == '>')
  {
    var parts := Split(output, '<');
    SplitCount(output, '<');
    if |parts| < 2 then None
    else
      var piece := Split(parts[1], '>')[0];
      IdAfterFirstOpen(output, parts, piece);
      Some(piece)
  }

  /** The id read from a reply is the longest run free of '<' and '>' right
      after the first '<'. */
  lemma IdAfterFirstOpen(output: string, parts: seq<string>, piece: string)
    requires '<' in output && parts == Split(output, '<') && |parts| >= 2
    requires piece == Split(parts[1], '>')[0]
    ensures var after := output[IndexOf(output, '<') + 1..];
      |piece| <= |after| && piece == after[..|piece|]
      && (|piece| == |after| || after[|piece|] == '<' || after[|piece|] == '>')
  {
    var i := IndexOf(output, '<');
    var after := output[i + 1..];
    assert parts == [output[..i]] + Split(after, '<');
    FirstPiece(after, '<');
    FirstPiece(parts[1], '>');
    RunWithin(after, parts[1], piece);
  }

  /** A run of s cut at the first '<', then cut at the first '>', is the
      longest prefix of s free of both. */
  lemma RunWithin(s: string, open: string, piece: string)
    requires |open| <= |s| && open == s[..|open|] && (|open| == |s| || s[|open|] == '<')
    requires |piece| <= |open| && piece == open[..|piece|] && (|piece| == |open| || open[|piece|] == '>')
    ensures |piece| <= |s| && piece == s[..|piece|]
      && (|piece| == |s| || s[|piece|] == '<' || s[|piece|] == '>')
  {
    if |piece| < |open| {
      assert s[|piece|] == open[|piece|];
    }
  }

  /** The first piece of a split of x + y, where x has no separator,
      starts with x. */
  lemma FirstPieceExtends(x: string, y: string, c: char)
    requires c !in x
    ensures |Split(x + y, c)[0]| >= |x| && Split(x + y, c)[0][..|x|] == x
  {
    var s := x + y;
    assert s[..|x|] == x;
    if c in s {
      var i := IndexOf(s, c);
      assert s[..i][..|x|] == x;
    }
  }

  /** The first piece of x + [c] + y is x when x has no c. */
  lemma FirstPieceOf(x: string, c: char, y: string)
    requires c !in x
    ensures Split(x + [c] + y, c)[0] == x
  {
    SplitCons(x, c, y);
  }

  /** The piece of id>rest before its first '<', cut at its first '>', is
      id. */
  lemma PieceThrough(id: string, rest: string)
    requires '<' !in id && '>' !in id
    ensures Split(Split(id + ['>'] + rest, '<')[0], '>')[0] == id
  {
    var closed := id + ['>'];
    assert '<' !in closed by {
      forall k | 0 <= k < |closed| ensures closed[k] != '<' {
        if k < |id| { assert closed[k] == id[k]; }
      }
    }
    FirstPieceExtends(closed, rest, '<');
    var piece := Split(closed + rest, '<')[0];
    assert piece == id + ['>'] + piece[|closed|..];
    FirstPieceOf(id, '>', piece[|closed|..]);
  }

  /** The job id of a reply of the form prefix<id>rest, where the prefix
      has no '<' and the id neither '<' nor '>', is the id. */
  lemma JobIdOfReply(prefix: string, id: string, rest: string)
    requires '<' !in prefix && '<' !in id && '>' !in id
    ensures JobId(prefix + ['<'] + id + ['>'] + rest) == Some(id)
  {
    var after := id + ['>'] + rest;
    assert prefix + ['<'] + id + ['>'] + rest == prefix + ['<'] + after;
    SplitCons(prefix, '<', after);
    PieceThrough(id, rest);
  }
}
