// getopt_win.c: the small getopt that sted and stehub use on Windows. Its
// cursor into argv (count) and the last option string survive between
// calls; each call looks at one argv element and returns an option letter,
// ':' for anything it does not accept, or EOF at the end.

module Getopt {
  import opened Wrappers

  /** getopt's end marker. */
  const EOF: int := -1
  /** What getopt returns for a missing value, an unknown option or a non-option. */
  const COLON: int := 58

  /** A C string holds no NUL. */
  predicate CString(s: string) { '\0' !in s }

  /** s[i] as C reads it: past the characters comes the terminating NUL. */
  function At(s: string, i: nat): char
  {
    if i < |s| then s[i] else '\0'
  }

  /** The first index of c in s, or |s| when c does not occur. */
  function FirstIndex(s: string, c: char): (k: nat)
    ensures k <= |s| && (k < |s| ==> s[k] == c)
    ensures forall j :: 0 <= j < k ==> s[j] != c
  {
    if s == [] || s[0] == c then 0 else 1 + FirstIndex(s[1..], c)
  }

  /** One getopt call: its return value, the new count, and the value it stored in optarg, if any. */
  datatype Scan = Scan(ret: int, count: int, optarg: Option<string>)

  /**
   * One getopt call from argv element count: past the last element EOF;
   * "-x" with x in optstring returns x, taking the next element as its
   * value when x is followed by ':' there; a value that is missing or
   * starts with '-' gives ':'; anything else is skipped with ':'.
   */
  function Step(count: int, argv: seq<string>, optstring: string): (r: Scan)
    requires count >= 1
    ensures r.optarg.Some? ==> count + 1 < |argv| && r.count == count + 2 && r.optarg.value == argv[count + 1] && At(r.optarg.value, 0) != '-'
    ensures r.ret == EOF ==> r.count == count && r.optarg.None?
  {
    if count > |argv| - 1 then Scan(EOF, count, None)
    else
      var opt := argv[count];
      var k := FirstIndex(optstring, At(opt, 1));
      if At(opt, 0) == '-' && k < |optstring| then
        if At(optstring, k + 1) == ':' then
          if count + 1 <= |argv| - 1 then
            if At(argv[count + 1], 0) == '-' then Scan(COLON, count + 1, None)
            else Scan(At(opt, 1) as int, count + 2, Some(argv[count + 1]))
          else Scan(COLON, count + 1, None)
        else Scan(At(opt, 1) as int, count + 1, None)
      else Scan(COLON, count + 1, None)
  }

  /**
   * Every call either returns EOF at the end of argv, leaving count alone,
   * or moves count on by one or two; it returns only EOF, ':' or a letter
   * of optstring.
   */
  lemma StepProgress(count: int, argv: seq<string>, optstring: string)
    requires count >= 1 && CString(optstring)
    ensures var r := Step(count, argv, optstring);
      && (r.ret == EOF <==> count > |argv| - 1)
      && (r.ret == EOF ==> r.count == count)
      && (r.ret != EOF ==> count + 1 <= r.count <= count + 2 && r.count <= |argv|)
      && (r.ret == EOF || r.ret == COLON || exists j :: 0 <= j < |optstring| && r.ret == optstring[j] as int)
  {
    var r := Step(count, argv, optstring);
    if count <= |argv| - 1 {
      var opt := argv[count];
      var k := FirstIndex(optstring, At(opt, 1));
      if At(opt, 0) == '-' && k < |optstring| {
        assert optstring[k] == At(opt, 1);
        assert At(opt, 1) != '\0';
      }
    }
  }

  /**
   * optarg is set exactly for a known option followed by ':' whose next
   * element exists and does not start with '-'; it is that element and
   * count moves on by two.
   */
  lemma StepOptarg(count: int, argv: seq<string>, optstring: string)
    requires count >= 1
    ensures var r := Step(count, argv, optstring);
      r.optarg.Some? <==>
        && count + 1 <= |argv| - 1
        && At(argv[count], 0) == '-'
        && FirstIndex(optstring, At(argv[count], 1)) < |optstring|
        && At(optstring, FirstIndex(optstring, At(argv[count], 1)) + 1) == ':'
        && At(argv[count + 1], 0) != '-'
    ensures var r := Step(count, argv, optstring);
      r.optarg.Some? ==> r.optarg.value == argv[count + 1] && r.count == count + 2
                         && r.ret == At(argv[count], 1) as int
  {
  }

  /**
   * getopt's static state: count (the next argv element), the option
   * string of the previous call, and the global optarg.
   */
  class Getopt {
    var count: int
    var optstringSaved: Option<string>
    var optarg: Option<string>

    predicate Valid()
      reads this
    {
      count >= 1
    }

    /** The state before the first call: count 1, no saved option string, optarg NULL. */
    constructor ()
      ensures Valid() && count == 1 && optstringSaved == None && optarg == None
    {
      count, optstringSaved, optarg := 1, None, None;
    }

    /** The loop of getopt over optstring: the first index holding the option letter, or |optstring|. */
    method FindOption(optstring: string, letter: char) returns (k: int)
      ensures k == FirstIndex(optstring, letter)
    {
      k := 0;
      while k < |optstring| && optstring[k] != letter
        invariant 0 <= k <= |optstring|
        invariant forall j :: 0 <= j < k ==> optstring[j] != letter
      {
        k := k + 1;
      }
      FirstIndexIs(optstring, letter, k);
    }

    /**
     * getopt(argc, argv, optstring): a different option string from the
     * last call's starts again at element 1; then one Step, whose count
     * and optarg are kept.
     */
    method Next(argv: seq<string>, optstring: string) returns (c: int)
      requires Valid()
      modifies this
      ensures Valid() && optstringSaved == Some(optstring)
      ensures var start := if old(optstringSaved).Some? && old(optstringSaved).value != optstring then 1 else old(count);
        var r := Step(start, argv, optstring);
        c == r.ret && count == r.count && optarg == (if r.optarg.Some? then r.optarg else old(optarg))
    {
      if optstringSaved.Some? && optstringSaved.value != optstring {
        count := 1;
      }
      optstringSaved := Some(optstring);
      if count > |argv| - 1 {
        return EOF;
      }
      var opt := argv[count];
      if At(opt, 0) == '-' {
        var i := FindOption(optstring, At(opt, 1));
        if i < |optstring| {
          if At(optstring, i + 1) == ':' {
            if count + 1 <= |argv| - 1 {
              if At(argv[count + 1], 0) == '-' {
                count := count + 1;
                return COLON;
              } else {
                optarg := Some(argv[count + 1]);
                count := count + 2;
                return At(opt, 1) as int;
              }
            } else {
              count := count + 1;
              return COLON;
            }
          } else {
            count := count + 1;
            return At(opt, 1) as int;
          }
        }
      }
      count := count + 1;
      return COLON;
    }

    /**
     * The callers' loop, while ((c = getopt(...)) != EOF): every letter
     * returned, with optarg after it, up to EOF.
     */
    method Collect(argv: seq<string>, optstring: string) returns (opts: seq<Parsed>)
      requires Valid() && CString(optstring)
      modifies this
      ensures Valid() && optstringSaved == Some(optstring)
      ensures var start := if old(optstringSaved).Some? && old(optstringSaved).value != optstring then 1 else old(count);
        opts == ParseFrom(start, argv, optstring, old(optarg))
    {
      ghost var start := if optstringSaved.Some? && optstringSaved.value != optstring then 1 else count;
      ghost var all := ParseFrom(start, argv, optstring, optarg);
      opts := [];
      var c := Next(argv, optstring);
      StepProgress(start, argv, optstring);
      while c != EOF
        invariant Valid() && optstringSaved == Some(optstring)
        invariant c != EOF ==> count <= |argv|
        invariant c != EOF ==> all == opts + [Parsed(c, optarg)] + ParseFrom(count, argv, optstring, optarg)
        invariant c == EOF ==> all == opts
        decreases |argv| - count + (if c == EOF then 0 else 1)
      {
        opts := opts + [Parsed(c, optarg)];
        StepProgress(count, argv, optstring);
        c := Next(argv, optstring);
      }
    }
  }

  /** A letter returned by getopt and the value of optarg right after. */
  datatype Parsed = Parsed(ret: int, optarg: Option<string>)

  /** The letters the callers' loop sees from count on, with optarg after each. */
  function ParseFrom(count: int, argv: seq<string>, optstring: string, optarg: Option<string>): (ps: seq<Parsed>)
    requires count >= 1 && CString(optstring)
    decreases |argv| - count
  {
    var r := Step(count, argv, optstring);
    if r.ret == EOF then []
    else
      StepProgress(count, argv, optstring);
      var arg := if r.optarg.Some? then r.optarg else optarg;
      [Parsed(r.ret, arg)] + ParseFrom(r.count, argv, optstring, arg)
  }

  lemma FirstIndexIs(s: string, c: char, k: int)
    requires 0 <= k <= |s| && (k < |s| ==> s[k] == c) && forall j :: 0 <= j < k ==> s[j] != c
    ensures FirstIndex(s, c) == k
  {
  }

  /** An option with a value, as a user writes it: "-x value". */
  datatype Opt = Opt(letter: char, value: string)

  /** optstring declares the letter with a value (the letter followed by ':'). */
  predicate TakesValue(optstring: string, letter: char)
  {
    FirstIndex(optstring, letter) < |optstring| && At(optstring, FirstIndex(optstring, letter) + 1) == ':'
  }

  function Render(opts: seq<Opt>): (args: seq<string>)
    ensures |args| == 2 * |opts|
  {
    if opts == [] then [] else [['-', opts[0].letter], opts[0].value] + Render(opts[1..])
  }

  function Expected(opts: seq<Opt>): (ps: seq<Parsed>)
    ensures |ps| == |opts|
  {
    if opts == [] then [] else [Parsed(opts[0].letter as int, Some(opts[0].value))] + Expected(opts[1..])
  }

  /**
   * The callers' loop reads back every option written as "-x value" when x
   * takes a value and no value starts with '-', whatever precedes them.
   */
  lemma {:induction false} ParseRender(pre: seq<string>, opts: seq<Opt>, optstring: string, optarg: Option<string>)
    requires |pre| >= 1 && CString(optstring)
    requires forall i :: 0 <= i < |opts| ==> TakesValue(optstring, opts[i].letter) && At(opts[i].value, 0) != '-'
    ensures ParseFrom(|pre|, pre + Render(opts), optstring, optarg) == Expected(opts)
    decreases |opts|
  {
    var argv := pre + Render(opts);
    if opts == [] {
      assert argv == pre;
    } else {
      var o, tail := opts[0], opts[1..];
      var pre' := pre + [['-', o.letter], o.value];
      assert Render(opts) == [['-', o.letter], o.value] + Render(tail);
      assert argv == pre' + Render(tail);
      assert argv[|pre|] == ['-', o.letter] && argv[|pre| + 1] == o.value;
      ParseFromOption(|pre|, argv, optstring, optarg, o);
      assert forall i :: 0 <= i < |tail| ==> tail[i] == opts[i + 1];
      ParseRender(pre', tail, optstring, Some(o.value));
      assert Expected(opts) == [Parsed(o.letter as int, Some(o.value))] + Expected(tail);
    }
  }

  /** "-x value" at count, x declared with a value: x is returned with the value and count moves on by two. */
  lemma StepOnValue(count: int, argv: seq<string>, optstring: string, o: Opt)
    requires 1 <= count && count + 1 < |argv|
    requires argv[count] == ['-', o.letter] && argv[count + 1] == o.value
    requires TakesValue(optstring, o.letter) && At(o.value, 0) != '-'
    ensures Step(count, argv, optstring) == Scan(o.letter as int, count + 2, Some(o.value))
  {
    assert At(argv[count], 0) == '-' && At(argv[count], 1) == o.letter;
  }

  /** The callers' loop on "-x value" at count: x with its value, then the rest from count + 2. */
  lemma ParseFromOption(count: int, argv: seq<string>, optstring: string, optarg: Option<string>, o: Opt)
    requires 1 <= count && count + 1 < |argv| && CString(optstring)
    requires argv[count] == ['-', o.letter] && argv[count + 1] == o.value
    requires TakesValue(optstring, o.letter) && At(o.value, 0) != '-'
    ensures ParseFrom(count, argv, optstring, optarg)
         == [Parsed(o.letter as int, Some(o.value))] + ParseFrom(count + 2, argv, optstring, Some(o.value))
  {
    StepOnValue(count, argv, optstring, o);
  }

  /** The option string sted's main loop passes to getopt. */
  const STED_OPTIONS: string := "d:i:h:p:"

  /** sted's option string: -h and -p take a value. */
  lemma StedOptstring()
    ensures CString(STED_OPTIONS) && TakesValue(STED_OPTIONS, 'h') && TakesValue(STED_OPTIONS, 'p')
  {
    assert STED_OPTIONS == ['d', ':', 'i', ':', 'h', ':', 'p', ':'];
    FirstIndexIs(STED_OPTIONS, 'h', 4);
    FirstIndexIs(STED_OPTIONS, 'p', 6);
  }

  /** sted -h hub -p proxy under sted's option string, for any values not starting with '-'. */
  lemma StedOptionsExample(argv: seq<string>, hub: string, proxy: string)
    requires |argv| == 5 && argv[1] == "-h" && argv[2] == hub && argv[3] == "-p" && argv[4] == proxy
    requires At(hub, 0) != '-' && At(proxy, 0) != '-'
    ensures ParseFrom(1, argv, STED_OPTIONS, None) == [Parsed('h' as int, Some(hub)), Parsed('p' as int, Some(proxy))]
  {
    StedOptstring();
    ParseFromOption(1, argv, STED_OPTIONS, None, Opt('h', hub));
    ParseFromOption(3, argv, STED_OPTIONS, Some(hub), Opt('p', proxy));
    assert ParseFrom(5, argv, STED_OPTIONS, Some(proxy)) == [];
  }

  /**
   * A value that starts with '-' is refused with ':' and read as the next
   * option; an option with its value missing gives ':' too.
   */
  lemma MissingValueExamples()
    ensures ParseFrom(1, ["stehub", "-p", "-d", "3"], "p:d:", None) == [Parsed(COLON, None), Parsed('d' as int, Some("3"))]
    ensures ParseFrom(1, ["stehub", "-p"], "p:d:", None) == [Parsed(COLON, None)]
  {
    assert At("-p", 1) == 'p' && At("-d", 1) == 'd';
    assert FirstIndex("p:d:", 'p') == 0;
    assert FirstIndex("p:d:", 'd') == 2;
    assert Step(1, ["stehub", "-p", "-d", "3"], "p:d:") == Scan(COLON, 2, None);
    assert Step(2, ["stehub", "-p", "-d", "3"], "p:d:") == Scan('d' as int, 4, Some("3"));
    assert Step(1, ["stehub", "-p"], "p:d:") == Scan(COLON, 2, None);
  }
}
