/**
 * The browser terminal of `public/js/fishman-web.js`: turning the command's
 * argument pairs into a request, drawing the progress bar in the prompt, and
 * joining the received chunks into the downloaded file.
 */
module WebClient {
  import opened Base
  import opened Storage
  import Text

  // ---------------------------------------------------------------------------
  // Argument pairs

  /** The request fields a flag can set. */
  datatype Key = PmKey | ModuleKey | VersionKey | DepsKey | DevKey

  /** The values the pairs have set so far; `None` is a variable still undefined. */
  datatype Fields = Fields(pm: Option<string>, moduleName: Option<string>, version: Option<string>,
                           incDeps: Option<string>, incDevDeps: Option<string>)

  /** The fields after some pairs, and the `term.error` messages they caused. */
  datatype Scan = Scan(fields: Fields, errors: seq<string>)

  /** The `fishmanRequest` payload; the optional fields are present only when truthy. */
  datatype Request = Request(pm: string, moduleName: string, version: Option<string>,
                             incDeps: Option<string>, incDevDeps: Option<string>)

  /** What one command does: the errors shown, in order, and the request sent, if any. */
  datatype Parse = Parse(errors: seq<string>, request: Option<Request>)

  function KeyOf(flag: string): Option<Key> {
    if flag == "--pm" then Some(PmKey)
    else if flag == "--module" || flag == "-m" then Some(ModuleKey)
    else if flag == "--version" || flag == "-v" then Some(VersionKey)
    else if flag == "--deps" then Some(DepsKey)
    else if flag == "--dev" then Some(DevKey)
    else None
  }

  function Get(f: Fields, k: Key): Option<string> {
    match k
    case PmKey => f.pm
    case ModuleKey => f.moduleName
    case VersionKey => f.version
    case DepsKey => f.incDeps
    case DevKey => f.incDevDeps
  }

  /** Assign one field, keeping the others. */
  function Set(f: Fields, k: Key, v: string): (r: Fields)
    ensures Get(r, k) == Some(v)
    ensures forall k' :: k' != k ==> Get(r, k') == Get(f, k')
  {
    match k
    case PmKey => f.(pm := Some(v))
    case ModuleKey => f.(moduleName := Some(v))
    case VersionKey => f.(version := Some(v))
    case DepsKey => f.(incDeps := Some(v))
    case DevKey => f.(incDevDeps := Some(v))
  }

  function Undefined(): Fields {
    Fields(None, None, None, None, None)
  }

  function WrongInput(flag: string): string {
    "wrong input \"" + flag + "\""
  }

  const OddArgs: string := "expected an even number of args"
  const Required: string := "--pm and --module is required"

  /** One pair: a known flag assigns its field, an unknown one is reported and skipped. */
  function Pair(s: Scan, flag: string, value: string): Scan {
    match KeyOf(flag)
    case Some(k) => Scan(Set(s.fields, k, value), s.errors)
    case None => Scan(s.fields, s.errors + [WrongInput(flag)])
  }

  /** The state after the pairs before index `n`, taken from the front. */
  function ScanUpTo(args: seq<string>, n: nat): Scan
    requires n <= |args| && n % 2 == 0
  {
    if n == 0 then Scan(Undefined(), []) else Pair(ScanUpTo(args, n - 2), args[n - 2], args[n - 1])
  }

  /** Keep a value only when it is truthy. */
  function Truthful(v: Option<string>): (r: Option<string>)
    ensures Truthy(v) ==> r == v
    ensures !Truthy(v) ==> r.None?
  {
    if Truthy(v) then v else None
  }

  /**
   * The handler for a non-empty command whose words after the program name
   * are `args`: an odd count is refused; otherwise every pair is scanned and
   * the request is sent when both the package manager and the module are set.
   */
  function ParseArgs(args: seq<string>): (r: Parse)
    ensures |args| % 2 != 0 ==> r == Parse([OddArgs], None)
    ensures r.request.Some? ==> |args| % 2 == 0 && r.request.value.pm != "" && r.request.value.moduleName != ""
    ensures r.request.None? ==> |r.errors| > 0
  {
    if |args| % 2 != 0 then Parse([OddArgs], None)
    else
      var s := ScanUpTo(args, |args|);
      var f := s.fields;
      if Truthy(f.pm) && Truthy(f.moduleName) then
        Parse(s.errors, Some(Request(f.pm.value, f.moduleName.value, Truthful(f.version), Truthful(f.incDeps), Truthful(f.incDevDeps))))
      else Parse(s.errors + [Required], None)
  }

  /** An empty command echoes an empty line and parses nothing. */
  function HandleCommand(command: string, args: seq<string>): (r: Parse)
    ensures command == "" ==> r.errors == [] && r.request.None?
    ensures command != "" ==> r == ParseArgs(args)
    ensures r.request.None? ==> (|r.errors| > 0 <==> command != "")
  {
    if command == "" then Parse([], None) else ParseArgs(args)
  }

  // ---------------------------------------------------------------------------
  // What the pairs mean

  /** The value of the last pair before index `n` whose flag sets `k`, found from the back. */
  function LastValue(args: seq<string>, k: Key, n: nat): Option<string>
    requires n <= |args| && n % 2 == 0
  {
    if n == 0 then None
    else if KeyOf(args[n - 2]) == Some(k) then Some(args[n - 1])
    else LastValue(args, k, n - 2)
  }

  /** Later pairs overwrite earlier ones: every field holds the value of its last pair. */
  lemma {:induction false} LastPairWins(args: seq<string>, k: Key, n: nat)
    requires n <= |args| && n % 2 == 0
    ensures Get(ScanUpTo(args, n).fields, k) == LastValue(args, k, n)
    decreases n
  {
    if n > 0 {
      LastPairWins(args, k, n - 2);
    }
  }

  /** Every message is about an unknown flag of a pair, and every unknown flag is reported. */
  lemma {:induction false} UnknownFlagsReported(args: seq<string>, n: nat)
    requires n <= |args| && n % 2 == 0
    ensures forall e :: e in ScanUpTo(args, n).errors ==>
      exists j :: 0 <= j < n && j % 2 == 0 && KeyOf(args[j]).None? && e == WrongInput(args[j])
    ensures forall j :: 0 <= j < n && j % 2 == 0 && KeyOf(args[j]).None? ==>
      WrongInput(args[j]) in ScanUpTo(args, n).errors
    decreases n
  {
    if n > 0 {
      UnknownFlagsReported(args, n - 2);
    }
  }

  /**
   * A request is sent exactly when the count is even and the last `--pm` and
   * the last module pair carry truthy values; it holds the last value of every
   * field, the optional ones only when truthy.
   */
  lemma ParseRequest(args: seq<string>)
    ensures var r := ParseArgs(args);
      r.request.Some? <==>
        |args| % 2 == 0 && Truthy(LastValue(args, PmKey, |args|)) && Truthy(LastValue(args, ModuleKey, |args|))
    ensures var r := ParseArgs(args);
      r.request.Some? ==>
        Some(r.request.value.pm) == LastValue(args, PmKey, |args|)
        && Some(r.request.value.moduleName) == LastValue(args, ModuleKey, |args|)
        && r.request.value.version == Truthful(LastValue(args, VersionKey, |args|))
        && r.request.value.incDeps == Truthful(LastValue(args, DepsKey, |args|))
        && r.request.value.incDevDeps == Truthful(LastValue(args, DevKey, |args|))
    ensures var r := ParseArgs(args);
      r.request.None? ==> |r.errors| > 0 && r.errors[|r.errors| - 1] == (if |args| % 2 != 0 then OddArgs else Required)
  {
    if |args| % 2 == 0 {
      LastPairWins(args, PmKey, |args|);
      LastPairWins(args, ModuleKey, |args|);
      LastPairWins(args, VersionKey, |args|);
      LastPairWins(args, DepsKey, |args|);
      LastPairWins(args, DevKey, |args|);
    }
  }

  /** The handler's loop over the pairs, two words at a time. */
  method ParseArgsLoop(args: seq<string>) returns (errors: seq<string>, request: Option<Request>)
    ensures Parse(errors, request) == ParseArgs(args)
  {
    if |args| % 2 != 0 {
      return [OddArgs], None;
    }
    var f := Undefined();
    errors := [];
    var i := 0;
    while i < |args|
      invariant 0 <= i <= |args| && i % 2 == 0
      decreases |args| - i
      invariant Scan(f, errors) == ScanUpTo(args, i)
    {
      match KeyOf(args[i]) {
        case Some(k) => f := Set(f, k, args[i + 1]);
        case None => errors := errors + [WrongInput(args[i])];
      }
      i := i + 2;
    }
    if Truthy(f.pm) && Truthy(f.moduleName) {
      request := Some(Request(f.pm.value, f.moduleName.value, Truthful(f.version), Truthful(f.incDeps), Truthful(f.incDevDeps)));
    } else {
      errors := errors + [Required];
      request := None;
    }
  }

  // ---------------------------------------------------------------------------
  // The progress bar

  const IdlePrompt: string := "> fishman "

  /**
   * `for (i = n; i--;)` runs `n` times when `n` is not negative; from a
   * negative start the counter never reaches zero and the loop does not end.
   */
  function CountDown(n: int): Option<nat> {
    if n >= 0 then Some(n) else None
  }

  /**
   * The loop `for (i = n; i--;) acc += c` run for at most `fuel` tests of
   * the counter: each round tests `i` (zero is falsy and ends the loop),
   * decrements it and appends `c`. `None` means the loop is still running
   * when the fuel is spent.
   */
  function AppendLoop(i: int, acc: string, c: char, fuel: nat): Option<string>
    decreases fuel
  {
    if fuel == 0 then None
    else if i == 0 then Some(acc)
    else AppendLoop(i - 1, acc + [c], c, fuel - 1)
  }

  /**
   * From a start `n >= 0` the loop ends after `n` rounds with `n` more
   * copies of `c`; from a negative start it never ends, however much fuel
   * it is given. So the loop runs exactly the rounds `CountDown` says.
   */
  lemma {:induction false} LoopCountsDown(n: int, acc: string, c: char, fuel: nat)
    ensures n >= 0 && fuel > n ==> AppendLoop(n, acc, c, fuel) == Some(acc + Text.Repeat(c, n))
    ensures n < 0 ==> AppendLoop(n, acc, c, fuel).None?
    ensures fuel > n ==> (AppendLoop(n, acc, c, fuel).Some? <==> CountDown(n).Some?)
    decreases fuel
  {
    if fuel > 0 && n != 0 {
      LoopCountsDown(n - 1, acc + [c], c, fuel - 1);
      if n > 0 {
        assert acc + [c] + Text.Repeat(c, n - 1) == acc + Text.Repeat(c, n) by {
          RepeatFront(c, n);
        }
      }
    } else if n == 0 {
      assert acc + Text.Repeat(c, 0) == acc;
    }
  }

  /** A run of copies can be built from the front as well as from the back. */
  lemma {:induction false} RepeatFront(c: char, n: nat)
    requires n > 0
    ensures Text.Repeat(c, n) == [c] + Text.Repeat(c, n - 1)
  {
    var r := Text.Repeat(c, n);
    var s := [c] + Text.Repeat(c, n - 1);
    assert |r| == |s|;
    forall i | 0 <= i < |r| ensures r[i] == s[i] {
      if i > 0 {
        assert s[i] == Text.Repeat(c, n - 1)[i - 1];
      }
    }
  }

  /**
   * `printProgress`: above 100 percent the prompt stays as it is; otherwise
   * the bar of `width` cells, the first `size` of them taken, is drawn with
   * the shown percentage, and at 100 percent the idle prompt returns. `None`
   * is a call that does not return, when `size` or `width - size` is negative.
   */
  function PrintProgress(prompt: string, width: int, size: int, percent: real, shown: string): (r: Option<string>)
    ensures percent > 100.0 ==> r == Some(prompt)
    ensures percent <= 100.0 ==> (r.Some? <==> 0 <= size <= width)
    ensures percent == 100.0 && 0 <= size <= width ==> r == Some(IdlePrompt)
    ensures percent < 100.0 && r.Some? ==>
      var p := r.value;
      |p| == width + 4 + |shown|
      && p[0] == '[' && p[width + 1] == ']' && p[width + 2..] == " " + shown + "%"
      && (forall i :: 1 <= i <= size ==> p[i] == '#')
      && (forall i :: size < i <= width ==> p[i] == '-')
  {
    if percent > 100.0 then Some(prompt)
    else
      match (CountDown(size), CountDown(width - size))
      case (Some(taken), Some(left)) =>
        var bar := "[" + Text.Repeat('#', taken) + Text.Repeat('-', left) + "] " + shown + "%";
        if percent == 100.0 then Some(IdlePrompt) else Some(bar)
      case _ => None
  }

  /** The taken cells of a drawn bar are exactly its first `size` cells. */
  lemma BarCells(prompt: string, width: int, size: int, percent: real, shown: string)
    requires percent < 100.0 && 0 <= size <= width
    ensures var p := PrintProgress(prompt, width, size, percent, shown).value;
      forall i :: 1 <= i <= width ==> (p[i] == '#' <==> i <= size)
  {
  }

  // ---------------------------------------------------------------------------
  // Joining the chunks

  /**
   * The `end` handler: an array of the received length is filled chunk by
   * chunk, byte by byte.
   */
  method JoinChunks(chunks: seq<Bytes>) returns (filedata: Bytes)
    ensures filedata == Flatten(chunks)
    ensures |filedata| == TotalLength(chunks)
  {
    FlattenLength(chunks);
    var a := new Byte[TotalLength(chunks)];
    var i := 0;
    var k := 0;
    while k < |chunks|
      invariant 0 <= k <= |chunks|
      invariant i == TotalLength(chunks[..k]) && i <= a.Length
      invariant a[..i] == Flatten(chunks[..k])
      invariant TotalLength(chunks[..k]) + TotalLength(chunks[k..]) == TotalLength(chunks)
    {
      var buff := chunks[k];
      assert chunks[k..] == [buff] + chunks[k + 1..];
      var j := 0;
      while j < |buff|
        invariant 0 <= j <= |buff| && i == TotalLength(chunks[..k]) + j && i <= a.Length
        invariant a[..i] == Flatten(chunks[..k]) + buff[..j]
      {
        a[i] := buff[j];
        assert a[..i + 1] == a[..i] + [buff[j]];
        assert buff[..j + 1] == buff[..j] + [buff[j]];
        i := i + 1;
        j := j + 1;
      }
      assert chunks[..k + 1] == chunks[..k] + [buff];
      FlattenAppend(chunks[..k], buff);
      assert buff[..j] == buff;
      k := k + 1;
    }
    assert chunks[..k] == chunks;
    filedata := a[..];
    assert a[..] == a[..i];
  }
}
