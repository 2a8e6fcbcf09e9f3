# Fitness estimation for PhIP-seq: a Dafny model

The repository estimates a "fitness" value for every clone of a phage
library. It does this from input counts Z and output counts X, using a
Bayes network: a Dirichlet layer theta with concentration `alpha * Z * w`,
under a prior on the fitness vector w. The prior is log-normal, shifted
Pareto or Gamma. A Gibbs sampler (`gibbs.py`) alternates between two steps:

- drawing theta given w;
- a Metropolis-Hastings sweep that updates w in place, one component at a
  time, in a random order.

Each iteration records a copy of w, the theta used, the fraction of moves
accepted and the log-likelihood terms. After the loop the sampler takes the
median and the mean of each component over the last 1000 recorded vectors.
Two companion scripts submit cluster jobs, one per input file:

- `bowtie_parts_with_LSF.py` submits bowtie alignments.
- `counts2pvals_separated.py` submits p-value computations.

Both scripts quote the command, assemble a `bsub` (LSF) or `qsub` (SGE)
command line, and derive the output and log file names from the input
file's stem.

This project models:

- the network constructors and their constants `a`, `b`, `c`;
- `logfactorial`;
- the three log-likelihood terms and their sum;
- the per-component log acceptance ratio of each family;
- `sample_w_given_theta` as a method over an array;
- the main loop as a method that keeps the list of recorded arrays;
- the trailing-window median and mean;
- the string-building of both submission scripts.

Modelling choices:

- **Elementary functions.** `log`, `exp` and `gammaln` are not defined. They
  are carried as an `Elementary` record of arbitrary real functions, so
  every property holds whatever they compute. The only fact ever assumed is
  that `exp` is positive, and it appears as a precondition where it is
  used.
- **Random variates.** The random variates of one sweep are inputs of the
  model, in a `Draws` value. These are theta, the normal steps `r`, the
  logarithms of the uniforms, and the permutation.
- **Log acceptance ratios.** They are modelled exactly as written.
  `FitnessNetworks.LogRatioVsJoint` shows how each one relates to the
  change in the joint log density `loglikelihood`:
  - Pareto: the ratio equals that change.
  - Log-normal (gibbs.py:102-106): the ratio is lower than that change by
    the current component's squared log deviation over the variance,
    `(log w_i - mu)^2 / sigma^2`.
  - Gamma (gibbs.py:225-229): the ratio carries the `(shape - 1)` log term
    with the opposite sign. The two agree at the default shape of 1.
- **The recorded list.** The first element of `ws` is the live array `w`
  itself, not a copy (gibbs.py:649). After the loop it therefore holds the
  final vector, and `GibbsDriver.RunChain` states exactly that. At 1000 or
  more iterations row 0 falls outside the summary window. With 1 to 999
  iterations the final vector is counted twice in the median and mean; with
  none, the window is the single starting vector.

## Model

| member | source | states |
|---|---|---|
| Numeric.LogFactorialRecurrence | gibbs.py:29 | `logfactorial(n)` is 0 for n <= 0, and otherwise `logfactorial(n-1) + log(n)`, so it is log n! |
| Numeric.SumUpdate | gibbs.py:101 | replacing one entry changes a sum by the difference of the new and old entry |
| Numeric.SumWithout | gibbs.py:101 | the total minus entry i is the sum of the entries before and after i |
| Numeric.SumBounds | gibbs.py:684 | a sum of n entries in [lo, hi] lies in [n lo, n hi] |
| Numeric.SumPositive | gibbs.py:684 | a nonempty sum of positive entries is positive |
| FitnessNetworks.LogNormalNetwork | gibbs.py:73-81 | the log-normal network keeps Z, X, mu, sigma and alpha = 1; its a, b, c are the prior constant, log n! and the sum of log X_i! |
| FitnessNetworks.ParetoNetwork | gibbs.py:126-133 | the Pareto network keeps Z, X, t and alpha = 1, with a = N log t and the same b, c |
| FitnessNetworks.GammaNetwork | gibbs.py:196-204 | the Gamma network keeps Z, X, scale, shape and alpha = 1, with a = -shape N log(scale) - N gammaln(shape) and the same b, c |
| FitnessNetworks.PriorConstantScales | gibbs.py:79 | every family's constant `a` for N components is N times the constant for one |
| FitnessNetworks.LogLikelihoodXIsMultinomial | gibbs.py:120-121 | `loglikelihood_X` is log n! minus the sum of log X_i! plus the sum of X_i log theta_i, the multinomial log probability |
| FitnessNetworks.SumNotIIsSumOfOthers | gibbs.py:101 | `sum_aZw_not_i`, computed as total minus component i, is the sum over every other component |
| FitnessNetworks.JointChange | gibbs.py:61-62 | when only w changes, the change in `loglikelihood` is the change in the w term plus the change in the theta term |
| FitnessNetworks.LogNormalPriorChange | gibbs.py:114-115 | the change in the log-normal `loglikelihood_w` when component i moves to v, in closed form |
| FitnessNetworks.ParetoPriorChange | gibbs.py:165-166 | the change in the Pareto `loglikelihood_w` when component i moves to v is (t + 1)(log w_i - log v) |
| FitnessNetworks.GammaPriorChange | gibbs.py:237-238 | the change in the Gamma `loglikelihood_w` when component i moves to v, in closed form |
| FitnessNetworks.ThetaChange | gibbs.py:117-118 | moving component i changes `loglikelihood_theta` by exactly the Dirichlet part of the written ratio |
| FitnessNetworks.PriorTermVsPrior | gibbs.py:102-106 | each family's written prior part of the ratio is the change in `loglikelihood_w` plus the family's deviation |
| FitnessNetworks.LogRatioVsJoint | gibbs.py:102-106 | the written `log_ratio` is the change in `loglikelihood` from accepting the proposal, plus a deviation that is 0 (Pareto), -(log w_i - mu)^2/sigma^2 (log-normal) or 2(shape-1)(log w_i - log w*_i) (Gamma) |
| FitnessNetworks.ParetoRatioAntisymmetric | gibbs.py:154-157 | for the Pareto prior, the ratio of the reverse move is the negation of the forward ratio |
| MetropolisSweep.Proposal | gibbs.py:95 | `w_star = w * exp(r)` has one proposal per component |
| MetropolisSweep.ProposalPositive | gibbs.py:95 | proposals from a positive w are positive |
| MetropolisSweep.SweptCandidates | gibbs.py:100-110 | after any number of steps, each component holds its old value or its proposal |
| MetropolisSweep.SweptKeeps | gibbs.py:100-110 | steps that visit other indices leave a component unchanged |
| MetropolisSweep.SweptOutcome | gibbs.py:100-110 | at the end of the sweep, the component visited at step k holds the proposal if that step's test passed, and otherwise its old value |
| MetropolisSweep.SweptCount | gibbs.py:99 | the accepted counter equals the number of steps whose test passed |
| MetropolisSweep.SampleWGivenTheta | gibbs.py:89-112 | the sweep leaves w equal to the sweep of the old w, and returns the accepted fraction |
| MetropolisSweep.SweepOutcome | gibbs.py:108-110 | the i-th visited component ends at w*[i] exactly when log u < log_ratio + r[i], computed with the components visited before it already updated |
| MetropolisSweep.EveryComponentDecided | gibbs.py:100 | every component is visited once and ends at its proposal or its old value, as its own test decides |
| MetropolisSweep.AcceptedCount | gibbs.py:112 | the accepted count is the number of components whose test passed |
| MetropolisSweep.AcceptedFractionBounds | gibbs.py:112 | the returned fraction lies in [0, 1] |
| MetropolisSweep.SweepKeepsPositive | gibbs.py:95-110 | a sweep keeps a positive w positive |
| MetropolisSweep.AcceptsVsJoint | gibbs.py:108 | the acceptance test is log u < (change in `loglikelihood` from accepting) + the family's deviation + r[i] |
| MetropolisSweep.Swept | gibbs.py:100-110 | the fold of the sweep keeps w's length and counts at most k acceptances after k steps |
| TraceSummary.Window | gibbs.py:683-684 | `ws[-1000:]` is the last min(1000, len) rows |
| TraceSummary.SortSeq | gibbs.py:683 | sorting gives a sorted permutation of the column |
| TraceSummary.Insert | gibbs.py:683 | insertion keeps order and adds exactly one occurrence of x |
| TraceSummary.SortedUnique | gibbs.py:683 | two sorted sequences with the same elements are equal |
| TraceSummary.LeastIsFirst | gibbs.py:683 | a sorted sequence starts with its least element |
| TraceSummary.MedianIgnoresOrder | gibbs.py:683 | the median depends only on the multiset of values |
| TraceSummary.MedianBetween | gibbs.py:683 | the median of values in [lo, hi] lies in [lo, hi] |
| TraceSummary.MeanBetween | gibbs.py:684 | the mean of values in [lo, hi] lies in [lo, hi] |
| TraceSummary.MedianPositive | gibbs.py:683 | the median of positive values is positive |
| TraceSummary.MeanPositive | gibbs.py:684 | the mean of positive values is positive |
| TraceSummary.ColumnMedians | gibbs.py:683 | one median per component |
| TraceSummary.ColumnMeans | gibbs.py:684 | one mean per component |
| TraceSummary.Summary | gibbs.py:683-684 | a median and a mean for every component |
| TraceSummary.SummaryColumn | gibbs.py:683-684 | the j-th median and mean are those of column j of the window |
| TraceSummary.SummaryBetween | gibbs.py:683-684 | if column j of the window lies in [lo, hi], so do its median and mean |
| TraceSummary.WindowPositive | gibbs.py:683 | the window of rows positive in column j is positive in column j |
| TraceSummary.SummaryPositive | gibbs.py:683-684 | a window positive in column j gives a positive median and mean for j |
| GibbsDriver.Chain | gibbs.py:658-668 | the vector after k iterations keeps the network's size |
| GibbsDriver.ChainStep | gibbs.py:668 | iteration k+1 is the sweep of the vector after k iterations with that iteration's draws |
| GibbsDriver.ChainFits | gibbs.py:668 | every vector of the chain has the network's size |
| GibbsDriver.ChainKeepsPositive | gibbs.py:646-668 | starting from a positive w, every vector of the chain is positive |
| GibbsDriver.Copies | gibbs.py:671 | the appended copies are the chain's vectors after iterations 1..k |
| GibbsDriver.StepsAreChain | gibbs.py:658-678 | the vectors a loop goes through are the chain's vectors |
| GibbsDriver.StatesAreChain | gibbs.py:658-678 | the loop's vectors are the chain, and with the live first entry they make up the trace |
| GibbsDriver.Iteration | gibbs.py:664-678 | one iteration sweeps w, appends a fresh copy, and records theta, the fraction and the three log-likelihood terms of the new w with their total |
| GibbsDriver.SweepLoop | gibbs.py:649-678 | the loop goes through the chain's vectors, appends one fresh copy per iteration, and keeps every list the same length |
| GibbsDriver.RunChain | gibbs.py:646-678 | the recorded list is the live w followed by fresh copies of the vector after each iteration; w ends at the chain's last vector; every iteration's record matches the vectors before and after it |
| GibbsDriver.TraceOfStates | gibbs.py:649-671 | rows made of the final vector followed by each iteration's copy are the trace |
| GibbsDriver.RecordsAlongChain | gibbs.py:672-678 | the per-iteration records match the chain's vectors |
| GibbsDriver.TraceRow | gibbs.py:649-671 | the trace has one row per iteration plus one; row 0 is the final vector and row q is the vector after q iterations |
| GibbsDriver.TraceRows | gibbs.py:682 | the trace is rectangular, its first and last rows agree, and row k is the chain's vector after k iterations |
| GibbsDriver.TraceWindow | gibbs.py:683-684 | with at least 1000 iterations the window is the vectors after the last 1000 iterations; with fewer it is the whole trace, which starts and ends with the final vector |
| GibbsDriver.TraceRowPositive | gibbs.py:649-671 | every trace row is positive when the starting w is |
| GibbsDriver.TraceSummaryPositive | gibbs.py:683-684 | the reported median and mean of every component are positive when the starting w is |
| Text.IndexOf | bowtie_parts_with_LSF.py:19 | the first position of c |
| Text.Split | bowtie_parts_with_LSF.py:57 | `str.split(c)` gives at least one piece, and no piece contains c |
| Text.JoinSplit | bowtie_parts_with_LSF.py:57 | joining the pieces of a split gives the string back |
| Text.SplitJoin | bowtie_parts_with_LSF.py:16 | splitting a join of c-free pieces gives the pieces back |
| Text.SplitCons | bowtie_parts_with_LSF.py:19 | splitting x c y, with c not in x, gives x followed by the pieces of y |
| Text.SplitCount | bowtie_parts_with_LSF.py:19 | a split has two or more pieces exactly when c occurs |
| Text.JoinSnoc | bowtie_parts_with_LSF.py:57 | joining one more piece appends c and that piece |
| Text.StripLeading | bowtie_parts_with_LSF.py:10 | removes the longest run of c at the front |
| Text.StripTrailing | bowtie_parts_with_LSF.py:10 | removes the longest run of c at the end |
| Text.StripKeeps | bowtie_parts_with_LSF.py:10 | `strip` keeps a contiguous middle that neither starts nor ends with c |
| Text.StripDrops | bowtie_parts_with_LSF.py:10 | `strip` removes only characters equal to c |
| Text.StripUnchanged | bowtie_parts_with_LSF.py:10 | a string that neither starts nor ends with c is unchanged |
| Text.StripIdempotent | bowtie_parts_with_LSF.py:10 | stripping twice is stripping once |
| Text.Digit | bowtie_parts_with_LSF.py:15 | a digit character and its value agree |
| Text.FormatNat | bowtie_parts_with_LSF.py:15 | `%d` of a natural number is a nonempty string of digits |
| Text.FormatInt | bowtie_parts_with_LSF.py:15 | `%d` is nonempty |
| Text.FormatNatLeadingDigit | bowtie_parts_with_LSF.py:15 | `%d` does not pad: the first digit is '0' only for 0, so a number of two or more digits starts with a nonzero digit |
| Text.ParseFormatNat | bowtie_parts_with_LSF.py:15 | reading back `%d` of n gives n |
| Text.ParseFormatInt | bowtie_parts_with_LSF.py:15 | reading back `%d` of any integer gives it back, sign included |
| Text.FormatIntExcludes | bowtie_parts_with_LSF.py:15 | `%d` holds only digits and '-' |
| Text.FormatIntInjective | bowtie_parts_with_LSF.py:15 | distinct integers print differently |
| Paths.Basename | bowtie_parts_with_LSF.py:51 | `os.path.basename` is the slash-free tail after the last '/' |
| Paths.Head | bowtie_parts_with_LSF.py:50 | the path is its head followed by its basename |
| Paths.Dirname | bowtie_parts_with_LSF.py:50 | `os.path.dirname` is a prefix of the head (the path up to its last '/') from which only slashes are dropped; it ends in no '/' unless the head is all slashes, and then it is the whole head |
| Paths.PathJoin | bowtie_parts_with_LSF.py:58 | `os.path.join` returns an absolute second part as is, and otherwise ends with it |
| Paths.BasenameAfterHead | bowtie_parts_with_LSF.py:58 | a slash-free name after a directory prefix is the basename |
| Paths.BasenameOfJoin | bowtie_parts_with_LSF.py:58 | the basename of a joined path is the file name joined on |
| Paths.DirnameOfJoin | bowtie_parts_with_LSF.py:58 | the dirname of a joined path is the directory joined to |
| Paths.SplitSnoc | bowtie_parts_with_LSF.py:57 | splitting x c y, with c not in y, gives the pieces of x followed by y |
| Paths.StemWithoutDot | bowtie_parts_with_LSF.py:57 | a name without '.' has the empty stem, as `'.'.join(split('.')[:-1])` gives |
| Paths.StemOfExtension | bowtie_parts_with_LSF.py:57 | the stem of x.ext is x |
| Paths.StemOfSuffix | bowtie_parts_with_LSF.py:57 | the stem of x + ".aln" (one dot) is x |
| Paths.StemSplits | bowtie_parts_with_LSF.py:57 | a name with a dot is its stem, a dot and a dot-free extension |
| Paths.StemIsPrefix | bowtie_parts_with_LSF.py:57 | the stem is a prefix of the name |
| Paths.FileStemHasNoSlash | bowtie_parts_with_LSF.py:57 | the stem of a file's basename contains no '/' |
| Scheduler.Quote | bowtie_parts_with_LSF.py:10 | the quoted command starts and ends with a double quote |
| Scheduler.QuoteUnquoted | bowtie_parts_with_LSF.py:10 | a command without surrounding quotes is wrapped in one pair |
| Scheduler.QuoteIdempotent | bowtie_parts_with_LSF.py:10 | quoting an already quoted command changes nothing |
| Scheduler.QuoteInjective | bowtie_parts_with_LSF.py:10 | two commands quote alike exactly when they agree after stripping quotes |
| Scheduler.LsfMemory | bowtie_parts_with_LSF.py:14-15 | the `-R "rusage[mem=N]"` clause is present exactly when a memory amount is given |
| Scheduler.SgeMemory | bowtie_parts_with_LSF.py:27-28 | the `-l h_vmem=NG` clause is present exactly when a memory amount is given |
| Scheduler.LsfMemoryRoundTrip | bowtie_parts_with_LSF.py:13-16 | the memory request, or its absence, reads back from the `bsub` line's tail, with a reader of the model's own (the script parses nothing) |
| Scheduler.SgeMemoryRoundTrip | bowtie_parts_with_LSF.py:26-29 | the memory request, or its absence, reads back from the `qsub` line's tail, with a reader of the model's own (the script parses nothing) |
| Scheduler.LsfCommandInjective | bowtie_parts_with_LSF.py:13-16 | for a fixed queue and output file, two `bsub` lines agree exactly when the memory requests and the stripped commands agree |
| Scheduler.SgeCommandInjective | bowtie_parts_with_LSF.py:26-29 | for a fixed queue, log file and job name, two `qsub` lines agree exactly when the memory requests and the stripped commands agree |
| Scheduler.LsfCommandWithMemory | bowtie_parts_with_LSF.py:13-16 | with a memory request, the `bsub` line is the plain one with the clause inserted before the quoted command |
| Scheduler.SgeCommandWithMemory | bowtie_parts_with_LSF.py:26-29 | with a memory request, the `qsub` line is the plain one with the clause inserted before the quoted command |
| Scheduler.JobId | bowtie_parts_with_LSF.py:19 | the job id is absent exactly when the reply has no '<' (where Python's `[1]` fails); otherwise it is the longest run free of '<' and '>' right after the first '<', so "a<12<3>" gives "12" and "a<123" gives "123" |
| Scheduler.JobIdOfReply | bowtie_parts_with_LSF.py:19 | from a reply `...<id>...`, the id between the first '<' and the next '>' is read back |
| BowtieParts.IndexEntries | bowtie_parts_with_LSF.py:49-52 | `params` starts with exactly the index's directory and name: the name is the slash-free last part of the index path and the directory a prefix of it |
| BowtieParts.FileParams | bowtie_parts_with_LSF.py:60-61 | the reads and alignments entries are set and every other entry is kept |
| BowtieParts.Reassigned | bowtie_parts_with_LSF.py:60-61 | overwriting the two file entries erases what the previous file left |
| BowtieParts.ParamsFor | bowtie_parts_with_LSF.py:54 | the dictionary has every key the template uses |
| BowtieParts.SubmitAll | bowtie_parts_with_LSF.py:56-63 | the loop submits one `qsub` line per input, in order, for that input's parameters with 4 GB; `params` ends holding the last file's entries |
| BowtieParts.OutputNames | bowtie_parts_with_LSF.py:57-59 | the alignment and log files are named stem.aln and stem.log, and keep the input's stem |
| BowtieParts.OutputDirectories | bowtie_parts_with_LSF.py:58-59 | the alignment and log files lie in the output and log directories |
| BowtieParts.AlignCommandEndsWithFiles | bowtie_parts_with_LSF.py:54 | the bowtie command's last two words are the read file and the alignment file |
| BowtieParts.SubmittedAsIs | bowtie_parts_with_LSF.py:63 | the bowtie command is submitted wrapped in exactly one pair of quotes |
| CountsToPvals.Sample | counts2pvals_separated.py:53 | the sample name is the stem of the basename and holds no '/' |
| CountsToPvals.ScriptDir | counts2pvals_separated.py:50 | the script directory is a prefix of the script path |
| CountsToPvals.SampleFileNameSpelled | counts2pvals_separated.py:54-55 | `'.'.join([sample, 'pvals', ext])` is sample + ".pvals." + ext |
| CountsToPvals.SampleFileNameSplits | counts2pvals_separated.py:54-55 | splitting that name on '.' gives the sample's pieces, then "pvals", then the extension |
| CountsToPvals.SampleFileNameStems | counts2pvals_separated.py:54-55 | two stems of that name give the sample back |
| CountsToPvals.SampleFileNameIsName | counts2pvals_separated.py:54-55 | that name is nonempty and holds no '/' |
| CountsToPvals.JoinedSampleFile | counts2pvals_separated.py:54-55 | a joined sample file has that name as basename, and two stems of it give the sample |
| CountsToPvals.OutputNames | counts2pvals_separated.py:54-55 | the output and log files are sample.pvals.csv and sample.pvals.log, and give the sample back |
| CountsToPvals.OutputDirectories | counts2pvals_separated.py:54-55 | the output and log files lie in the output and log directories |
| CountsToPvals.PvalsCommandWords | counts2pvals_separated.py:56 | with no spaces in the paths, the command's words are python, the script path, -i, the input, -o and the output |
| CountsToPvals.SubmittedAsIs | counts2pvals_separated.py:57 | the p-value command is submitted wrapped in exactly one pair of quotes |
| CountsToPvals.Lines | counts2pvals_separated.py:52-57 | one line per input, in order |
| CountsToPvals.Submissions | counts2pvals_separated.py:52-57 | one `qsub` line per input, in order, carrying job name counts2pval, that sample's log file, the command and the memory option |

## Left out

- Random number generation is left out. Theta, the normal steps, the uniforms and the permutation (`sample_theta_given_w`, `normal`, `rand`, `permutation`) are inputs in `Draws`. `sample_prior` is represented by the starting w.
- `SymParetoFitnessNetwork` is left out. The main program never uses it.
- Floating point is left out. Arithmetic is on reals; rounding, overflow, NaN and infinities are not modelled.
- `log`, `exp` and `gammaln` are not defined. Their only property used is that `exp` is positive.
- The standard deviation, percentiles, `log10` and `centered_matrix` summaries after the median and mean are left out (gibbs.py:685-687).
- Writing results, plots, and the argument parsing and data loading of `gibbs.py` are left out as I/O.
- Progress messages to stderr are left out.
- MetropolisSweep.SampleWGivenTheta: an empty network (N = 0) is excluded by the requires `w.Length > 0`. On it the source raises ZeroDivisionError at `float(num_accepted) / self.N` (gibbs.py:112, 163 and 235). `GibbsDriver.Iteration`, `GibbsDriver.SweepLoop` and `GibbsDriver.RunChain` carry the same requires, so the model says nothing about a run on an empty network.
- Validation of hyperparameters is left out. The model requires only that sigma and scale are nonzero, because the formulas divide by them.
- The order in which numpy adds up a vector is not modelled. Sums are exact.
- `GibbsDriver.SweepStep` is made total by a guard that the main loop never triggers.
- In the submission scripts, `argparse`, `glob`, `os.makedirs`, `subprocess.Popen`, `print` and the job's stdout are left out. A script's inputs are the list of matched files, and the scheduler's reply is an input string.
- `os.path.abspath` is treated as the identity. The model takes the paths as already absolute.
- `submit_to_LSF`'s job-id reading is modelled (`Scheduler.JobId`), although neither script's loop calls `submit_to_LSF`. `submit_to_SGE` returns the raw reply, which is not modelled.
- The `params` dictionary's keys are an enumeration of the four names the template uses.
- A Python crash on a reply without '<' is modelled as `None`.
