/** The argument loop of `btstack_main`: `-a` or `--address` followed by an
    address selects fixed-target mode. The address parser `sscanf_bd_addr`
    is not part of this model; it is passed in as `scan`, a partial parser
    that yields an address or nothing. */
module CommandLine {
  import opened BleTypes

  datatype Option<T> = None | Some(value: T)

  /** Exit with the usage message and status 1, or go on to start the stack
      with `cmdline_addr_found` and `cmdline_addr` as given */
  datatype ParseResult = UsageError | Proceed(addrFound: bool, addr: Address)

  predicate IsAddressFlag(arg: string) {
    arg == "-a" || arg == "--address"
  }

  /** The loop from position `arg` on, with `found` and `addr` holding
      `cmdline_addr_found` and `cmdline_addr` so far */
  function ParseFrom(argv: seq<string>, scan: string -> Option<Address>, arg: nat, found: bool, addr: Address): ParseResult
    decreases |argv| - arg
  {
    if arg >= |argv| then Proceed(found, addr)
    else if !IsAddressFlag(argv[arg]) then ParseFrom(argv, scan, arg + 1, found, addr)
    else if arg + 1 < |argv| then
      match scan(argv[arg + 1])
      case None => UsageError
      case Some(parsed) => ParseFrom(argv, scan, arg + 2, true, parsed)
    else if !found then UsageError
    else ParseFrom(argv, scan, arg + 1, found, addr)
  }

  /** The whole command line; `argv[0]` is the program name */
  function Parse(argv: seq<string>, scan: string -> Option<Address>): ParseResult {
    ParseFrom(argv, scan, 1, false, ZERO_ADDRESS)
  }

  /** The loop of `btstack_main` as written */
  method ParseArguments(argv: seq<string>, scan: string -> Option<Address>) returns (r: ParseResult)
    ensures r == Parse(argv, scan)
  {
    var found := false;
    var addr := ZERO_ADDRESS;
    var arg := 1;
    while arg < |argv|
      invariant 1 <= arg
      invariant ParseFrom(argv, scan, arg, found, addr) == Parse(argv, scan)
      decreases |argv| - arg
    {
      if IsAddressFlag(argv[arg]) {
        if arg + 1 < |argv| {
          arg := arg + 1;
          var parsed := scan(argv[arg]);
          found := parsed.Some?;
          if found {
            addr := parsed.value;
          }
        }
        if !found {
          return UsageError;
        }
      }
      arg := arg + 1;
    }
    return Proceed(found, addr);
  }

  /** Without an address flag the client scans for any advertiser. */
  lemma {:induction false} NoFlagMeansScan(argv: seq<string>, scan: string -> Option<Address>, arg: nat, found: bool, addr: Address)
    requires forall k :: arg <= k < |argv| ==> !IsAddressFlag(argv[k])
    ensures ParseFrom(argv, scan, arg, found, addr) == Proceed(found, addr)
    decreases |argv| - arg
  {
    if arg < |argv| {
      NoFlagMeansScan(argv, scan, arg + 1, found, addr);
    }
  }

  /** `argv[k]` was parsed as `addr` and follows an address flag */
  ghost predicate ParsedAfterFlag(argv: seq<string>, scan: string -> Option<Address>, addr: Address) {
    exists k :: 2 <= k < |argv| && IsAddressFlag(argv[k - 1]) && scan(argv[k]) == Some(addr)
  }

  /** A fixed target, when there is one, is an argument that follows an
      address flag and that the parser accepted; without one the address
      stays all zero. */
  lemma {:induction false} TargetComesFromFlag(argv: seq<string>, scan: string -> Option<Address>, arg: nat, found: bool, addr: Address)
    requires 1 <= arg
    requires found ==> ParsedAfterFlag(argv, scan, addr)
    requires !found ==> addr == ZERO_ADDRESS
    ensures var r := ParseFrom(argv, scan, arg, found, addr);
      && (r.Proceed? && r.addrFound ==> ParsedAfterFlag(argv, scan, r.addr))
      && (r.Proceed? && !r.addrFound ==> r.addr == ZERO_ADDRESS)
    decreases |argv| - arg
  {
    if arg < |argv| {
      if !IsAddressFlag(argv[arg]) {
        TargetComesFromFlag(argv, scan, arg + 1, found, addr);
      } else if arg + 1 < |argv| {
        match scan(argv[arg + 1])
        case None =>
        case Some(parsed) =>
          assert IsAddressFlag(argv[(arg + 1) - 1]);
          TargetComesFromFlag(argv, scan, arg + 2, true, parsed);
      } else if found {
        TargetComesFromFlag(argv, scan, arg + 1, found, addr);
      }
    }
  }

  /** The first address flag from position `arg` on ends the program with
      the usage message when it is the last argument and no address was
      found before it, or when the parser rejects the argument after it. */
  lemma {:induction false} UsageErrors(argv: seq<string>, scan: string -> Option<Address>, arg: nat, k: nat, found: bool, addr: Address)
    requires 1 <= arg <= k < |argv| && IsAddressFlag(argv[k])
    requires forall i :: arg <= i < k ==> !IsAddressFlag(argv[i])
    requires (k + 1 == |argv| && !found) || (k + 1 < |argv| && scan(argv[k + 1]).None?)
    ensures ParseFrom(argv, scan, arg, found, addr) == UsageError
    decreases k - arg
  {
    if arg < k {
      UsageErrors(argv, scan, arg + 1, k, found, addr);
    }
  }

  /** Conversely, a usage error comes only from an address flag that is the
      last argument or whose next argument the parser rejects. */
  lemma {:induction false} UsageErrorOnlyAtFlag(argv: seq<string>, scan: string -> Option<Address>, arg: nat, found: bool, addr: Address)
    requires ParseFrom(argv, scan, arg, found, addr) == UsageError
    ensures exists k ::
      && arg <= k < |argv| && IsAddressFlag(argv[k])
      && (k + 1 == |argv| || scan(argv[k + 1]).None?)
    decreases |argv| - arg
  {
    if !IsAddressFlag(argv[arg]) {
      UsageErrorOnlyAtFlag(argv, scan, arg + 1, found, addr);
    } else if arg + 1 < |argv| {
      match scan(argv[arg + 1])
      case None =>
      case Some(parsed) =>
        UsageErrorOnlyAtFlag(argv, scan, arg + 2, true, parsed);
    }
  }
}
