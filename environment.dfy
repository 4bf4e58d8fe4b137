/**
 * The string helpers of the solver's run environment and configuration:
 * the file-system friendly instance name, the human-readable time stamp,
 * the solution and visualization paths, and the brief configuration string.
 * Numbers are printed the way std::to_string prints an int.
 */
module SolverEnv {

  datatype Option<T> = None | Some(value: T)

  /** The search algorithms a configuration can name, in declaration order. */
  datatype Algorithm = Greedy | TreeSearch | DynamicProgramming | LocalSearch | Genetic | MathematicallProgramming

  /** The configuration: the chosen algorithm and the threads per worker. */
  datatype Configuration = Configuration(alg: Algorithm, threadNumPerWorker: int)

  /** The parts of the environment the helpers read. */
  datatype Environment = Environment(instPath: string, slnPath: string, localTime: string)

  const DefaultVisualizationDir: string := "Visualization/"

  /** The integer an unscoped enumerator prints as. */
  function Ordinal(a: Algorithm): (k: nat)
    ensures k < 6
  {
    match a
    case Greedy => 0
    case TreeSearch => 1
    case DynamicProgramming => 2
    case LocalSearch => 3
    case Genetic => 4
    case MathematicallProgramming => 5
  }

  function FromOrdinal(k: nat): (a: Algorithm)
    requires k < 6
    ensures Ordinal(a) == k
  {
    if k == 0 then Greedy
    else if k == 1 then TreeSearch
    else if k == 2 then DynamicProgramming
    else if k == 3 then LocalSearch
    else if k == 4 then Genetic
    else MathematicallProgramming
  }

  /** string::find_last_of for one character; None stands for npos. */
  function FindLastOf(s: string, c: char): (pos: Option<nat>)
    ensures pos.None? <==> c !in s
    ensures pos.Some? ==> pos.value < |s| && s[pos.value] == c && c !in s[pos.value + 1..]
  {
    if s == [] then None
    else if s[|s| - 1] == c then Some(|s| - 1)
    else
      var p := FindLastOf(s[..|s| - 1], c);
      assert s == s[..|s| - 1] + [s[|s| - 1]];
      if p.Some? then
        assert s[p.value + 1..] == s[..|s| - 1][p.value + 1..] + [s[|s| - 1]];
        p
      else p
  }

  /** The first position of c in s, or None. */
  function FindFirst(s: string, c: char): (pos: Option<nat>)
    ensures pos.None? <==> c !in s
    ensures pos.Some? ==> pos.value < |s| && s[pos.value] == c && c !in s[..pos.value]
  {
    if s == [] then None
    else if s[0] == c then Some(0)
    else
      var p := FindFirst(s[1..], c);
      assert s == [s[0]] + s[1..];
      if p.Some? then
        assert s[..p.value + 1] == [s[0]] + s[1..][..p.value];
        Some(p.value + 1)
      else None
  }

  /**
   * The instance path without its directories: the part after the last '/',
   * or the whole path when it has none.
   */
  function FriendlyInstName(instPath: string): (r: string)
    ensures '/' !in r
    ensures |r| <= |instPath| && r == instPath[|instPath| - |r|..]
    ensures '/' !in instPath ==> r == instPath
    ensures '/' in instPath ==> instPath[|instPath| - |r| - 1] == '/'
  {
    match FindLastOf(instPath, '/')
    case None => instPath
    case Some(k) => instPath[k + 1..]
  }

  /** Whatever directories precede a file name, the friendly name is the file name. */
  lemma FriendlyNameOfPath(dir: string, name: string)
    requires |dir| > 0 && dir[|dir| - 1] == '/'
    requires '/' !in name
    ensures FriendlyInstName(dir + name) == name
  {
    var p := dir + name;
    var d := |dir| - 1;
    assert p[d] == '/';
    assert forall j :: d < j < |p| ==> p[j] == name[j - d - 1];
    assert p[d + 1..] == name;
    var k := FindLastOf(p, '/').value;
    assert forall j :: k < j < |p| ==> p[j] == p[k + 1..][j - k - 1];
  }

  /** string::substr(pos, len): at most len characters from pos; pos may not pass the end. */
  function Substr(s: string, pos: nat, len: nat): (r: string)
    requires pos <= |s|
    ensures |r| == if pos + len <= |s| then len else |s| - pos
    ensures r == s[pos..pos + |r|]
  {
    if pos + len <= |s| then s[pos..pos + len] else s[pos..]
  }

  /** The stamp YYYYMMDDhhmmss shown as YYYY-MM-DD_hh:mm:ss. */
  function FriendlyLocalTime(localTime: string): (r: string)
    requires |localTime| >= 12
    ensures |localTime| >= 14 ==> |r| == 19
    ensures |localTime| >= 14 ==>
      r[4] == '-' && r[7] == '-' && r[10] == '_' && r[13] == ':' && r[16] == ':'
  {
    Substr(localTime, 0, 4) + "-" + Substr(localTime, 4, 2) + "-" + Substr(localTime, 6, 2)
      + "_" + Substr(localTime, 8, 2) + ":" + Substr(localTime, 10, 2) + ":" + Substr(localTime, 12, 2)
  }

  /** Drops the five separators of a friendly time stamp. */
  function StampDigits(r: string): string
    requires |r| == 19
  {
    r[..4] + r[5..7] + r[8..10] + r[11..13] + r[14..16] + r[17..19]
  }

  /** The friendly stamp keeps every character of the first 14, in order. */
  lemma FriendlyLocalTimeRoundTrip(localTime: string)
    requires |localTime| >= 14
    ensures StampDigits(FriendlyLocalTime(localTime)) == localTime[..14]
  {
    var t := localTime;
    var y, mo, d, h, mi, s := t[..4], t[4..6], t[6..8], t[8..10], t[10..12], t[12..14];
    assert Substr(t, 0, 4) == y && Substr(t, 4, 2) == mo && Substr(t, 6, 2) == d;
    assert Substr(t, 8, 2) == h && Substr(t, 10, 2) == mi && Substr(t, 12, 2) == s;
    var r := y + "-" + mo + "-" + d + "_" + h + ":" + mi + ":" + s;
    assert FriendlyLocalTime(t) == r;
    assert r[..4] == y && r[5..7] == mo && r[8..10] == d;
    assert r[11..13] == h && r[14..16] == mi && r[17..19] == s;
    assert t[..14] == y + mo + d + h + mi + s;
  }

  /** The solution path tagged with the run's time stamp. */
  function SolutionPathWithTime(env: Environment): (r: string)
    ensures |r| == |env.slnPath| + 1 + |env.localTime|
    ensures r[..|env.slnPath|] == env.slnPath && r[|env.slnPath|] == '.' && r[|env.slnPath| + 1..] == env.localTime
  {
    env.slnPath + "." + env.localTime
  }

  /** A stamp without '.' is exactly the extension of the tagged solution path. */
  lemma SolutionPathExtension(env: Environment)
    requires '.' !in env.localTime
    ensures FindLastOf(SolutionPathWithTime(env), '.') == Some(|env.slnPath|)
  {
    var r := SolutionPathWithTime(env);
    var p := FindLastOf(r, '.');
    var k := p.value;
    assert forall j :: k < j < |r| ==> r[j] == r[k + 1..][j - k - 1];
    assert forall j :: |env.slnPath| < j < |r| ==> r[j] == env.localTime[j - |env.slnPath| - 1];
  }

  /** The visualization file of the instance for this run. */
  function VisualizPath(env: Environment): (r: string)
    ensures |r| >= |DefaultVisualizationDir| + 6
    ensures r[..|DefaultVisualizationDir|] == DefaultVisualizationDir
    ensures r[|r| - 5..] == ".html"
  {
    DefaultVisualizationDir + FriendlyInstName(env.instPath) + "." + env.localTime + ".html"
  }

  /** The visualization file of the instance for this run, tagged with a number. */
  function VisualizPathWithMsg(env: Environment, msg: int): (r: string)
    ensures |r| >= |DefaultVisualizationDir| + 8
    ensures r[..|DefaultVisualizationDir|] == DefaultVisualizationDir
    ensures r[|r| - 5..] == ".html"
  {
    DefaultVisualizationDir + FriendlyInstName(env.instPath) + "." + env.localTime + "." + IntToString(msg) + ".html"
  }

  /** With a stamp free of '/', the visualization file sits directly in the visualization directory. */
  lemma VisualizPathInDir(env: Environment)
    requires '/' !in env.localTime
    ensures FriendlyInstName(VisualizPath(env)) == FriendlyInstName(env.instPath) + "." + env.localTime + ".html"
  {
    var f := FriendlyInstName(env.instPath);
    var name := f + "." + env.localTime + ".html";
    assert '/' !in name by {
      assert '/' !in f && '/' !in "." && '/' !in ".html";
      assert name == f + ("." + (env.localTime + ".html"));
    }
    assert VisualizPath(env) == DefaultVisualizationDir + name;
    FriendlyNameOfPath(DefaultVisualizationDir, name);
  }

  /** A numeral written by to_string holds only digits and a leading '-'. */
  lemma NumeralChars(i: int)
    ensures forall k :: 0 <= k < |IntToString(i)| ==> IntToString(i)[k] == '-' || IsDigit(IntToString(i)[k])
  {
    if i < 0 {
      var body := NatToDecimal(-i);
      assert IntToString(i) == "-" + body;
      assert forall k :: 1 <= k < |IntToString(i)| ==> IntToString(i)[k] == body[k - 1];
    }
  }

  /** With a stamp free of '/', the tagged visualization file sits directly in the visualization directory. */
  lemma VisualizPathWithMsgInDir(env: Environment, msg: int)
    requires '/' !in env.localTime
    ensures FriendlyInstName(VisualizPathWithMsg(env, msg))
      == FriendlyInstName(env.instPath) + "." + env.localTime + "." + IntToString(msg) + ".html"
  {
    var f := FriendlyInstName(env.instPath);
    var m := IntToString(msg);
    NumeralChars(msg);
    assert '/' !in m;
    var name := f + "." + env.localTime + "." + m + ".html";
    assert '/' !in name by {
      assert '/' !in f && '/' !in "." && '/' !in ".html";
      assert name == f + ("." + (env.localTime + ("." + (m + ".html"))));
    }
    assert VisualizPathWithMsg(env, msg) == DefaultVisualizationDir + name;
    FriendlyNameOfPath(DefaultVisualizationDir, name);
  }

  /**
   * The message can be read back from the tagged path: it is what follows
   * the last '.' before ".html", parsed as an integer.
   */
  lemma VisualizMsgRecoverable(env: Environment, msg: int)
    ensures var r := VisualizPathWithMsg(env, msg);
      var stem := r[..|r| - 5];
      && FindLastOf(stem, '.').Some?
      && ParseInt(stem[FindLastOf(stem, '.').value + 1..]) == msg
  {
    var r := VisualizPathWithMsg(env, msg);
    var m := IntToString(msg);
    var prefix := DefaultVisualizationDir + FriendlyInstName(env.instPath) + "." + env.localTime;
    var stem := r[..|r| - 5];
    assert stem == prefix + "." + m;
    NumeralChars(msg);
    assert '.' !in m;
    var k := |prefix|;
    assert stem[k] == '.';
    var pos := FindLastOf(stem, '.');
    assert pos.Some?;
    assert pos.value == k;
    assert stem[k + 1..] == m;
    IntRoundTrip(msg);
  }

  predicate IsDigit(c: char)
  {
    '0' as int <= c as int <= '9' as int
  }

  /** Every character of s is a decimal digit. */
  predicate AllDigits(s: string)
  {
    forall k :: 0 <= k < |s| ==> IsDigit(s[k])
  }

  function DigitValue(c: char): (d: nat)
    requires IsDigit(c)
    ensures d < 10
  {
    c as int - '0' as int
  }

  function Digit(d: nat): (c: char)
    requires d < 10
    ensures IsDigit(c)
  {
    (('0' as int) + d) as char
  }

  /** The decimal numeral of n without leading zeros. */
  function NatToDecimal(n: nat): (r: string)
    ensures |r| >= 1
    ensures AllDigits(r)
    ensures r[0] == '0' ==> n == 0
  {
    if n < 10 then [Digit(n)] else NatToDecimal(n / 10) + [Digit(n % 10)]
  }

  /** The value of a string of digits. */
  function DecimalToNat(s: string): nat
    requires AllDigits(s)
  {
    if s == [] then 0 else DecimalToNat(s[..|s| - 1]) * 10 + DigitValue(s[|s| - 1])
  }

  lemma {:induction false} DecimalRoundTrip(n: nat)
    ensures DecimalToNat(NatToDecimal(n)) == n
  {
    if n >= 10 {
      var s := NatToDecimal(n);
      assert s[..|s| - 1] == NatToDecimal(n / 10);
      DecimalRoundTrip(n / 10);
    }
  }

  /** std::to_string of an int. */
  function IntToString(i: int): (r: string)
    ensures ';' !in r
  {
    if i < 0 then "-" + NatToDecimal(-i) else NatToDecimal(i)
  }

  /** The value of an optionally signed numeral; 0 for anything else. */
  function ParseInt(s: string): int
  {
    var negative := |s| > 0 && s[0] == '-';
    var body := if negative then s[1..] else s;
    if AllDigits(body) then
      if negative then -(DecimalToNat(body) as int) else DecimalToNat(body)
    else 0
  }

  lemma IntRoundTrip(i: int)
    ensures ParseInt(IntToString(i)) == i
  {
    var s := IntToString(i);
    if i < 0 {
      var body := NatToDecimal(-i);
      assert s[0] == '-' && s[1..] == body;
      DecimalRoundTrip(-i);
    } else {
      assert IsDigit(s[0]);
      DecimalRoundTrip(i);
    }
  }

  /** The configuration in brief: "alg=<algorithm number>;job=<threads per worker>". */
  function ToBriefStr(cfg: Configuration): (r: string)
    ensures |r| >= |NatToDecimal(Ordinal(cfg.alg))| + 10
    ensures r[..4] == "alg="
    ensures ";job=" <= r[|NatToDecimal(Ordinal(cfg.alg))| + 4..]
  {
    "alg=" + NatToDecimal(Ordinal(cfg.alg)) + ";job=" + IntToString(cfg.threadNumPerWorker)
  }

  /** Reads a brief configuration string back. */
  function ParseBrief(s: string): Option<Configuration>
  {
    if |s| < 4 || s[..4] != "alg=" then None
    else
      var rest := s[4..];
      match FindFirst(rest, ';')
      case None => None
      case Some(k) =>
        if !(";job=" <= rest[k..]) || !AllDigits(rest[..k]) then None
        else
          var a := DecimalToNat(rest[..k]);
          if a < 6 then Some(Configuration(FromOrdinal(a), ParseInt(rest[k + 5..]))) else None
  }

  /** The brief string determines the configuration it was made from. */
  lemma BriefStrRoundTrip(cfg: Configuration)
    ensures ParseBrief(ToBriefStr(cfg)) == Some(cfg)
  {
    var s := ToBriefStr(cfg);
    var d := NatToDecimal(Ordinal(cfg.alg));
    var t := IntToString(cfg.threadNumPerWorker);
    var rest := s[4..];
    assert rest == d + ";job=" + t;
    assert ';' !in d by {
      forall j | 0 <= j < |d| ensures d[j] != ';' {
        assert IsDigit(d[j]);
      }
    }
    var p := FindFirst(rest, ';');
    assert rest[|d|] == ';';
    var k := p.value;
    assert forall j :: 0 <= j < |d| ==> rest[j] == d[j];
    assert forall j :: 0 <= j < k ==> rest[j] == rest[..k][j];
    assert k == |d|;
    assert rest[..k] == d;
    assert rest[k + 5..] == t;
    DecimalRoundTrip(Ordinal(cfg.alg));
    IntRoundTrip(cfg.threadNumPerWorker);
    assert FromOrdinal(Ordinal(cfg.alg)) == cfg.alg;
  }
}
