/**
 * The three commands' data flow: `subscribe` prints one line per delivered
 * signal, `once` prints the first delivered signal's values without a
 * newline, and `publish` wraps its arguments into the body it emits. The
 * signals the bus delivers are given as a finite sequence, in delivery order;
 * its end stands for the channel being closed.
 */
module Dispatch {
  import opened Wrappers
  import opened Strings
  import opened Bus
  import opened Payload
  import Filter

  /** The separator between rendered values. */
  const Space: string := " "

  /** What `once` writes for a body: the values joined by single spaces. */
  function OnceLine(body: seq<Value>): (r: Result<string, PayloadError>)
    ensures r.Success? <==> AllStrings(body)
    ensures r.Failure? ==> r.error == AsStrings(body).error
  {
    match AsStrings(body)
    case Success(strs) => Success(Join(strs, Space))
    case Failure(e) => Failure(e)
  }

  /** What `subscribe` writes for one body: the same join and a newline. */
  function SubscribeLine(body: seq<Value>): (r: Result<string, PayloadError>)
    ensures r.Success? <==> AllStrings(body)
    ensures r.Success? ==> |r.value| >= 1 && r.value[|r.value| - 1] == '\n'
  {
    match AsStrings(body)
    case Success(strs) => Success(Join(strs, Space) + "\n")
    case Failure(e) => Failure(e)
  }

  /** Standard output written so far, and the panic that ended the command, if any. */
  datatype Transcript = Transcript(stdout: string, panic: Option<PayloadError>)

  /** `out` written before what `t` records. */
  function After(out: string, t: Transcript): Transcript {
    Transcript(out + t.stdout, t.panic)
  }

  /**
   * What `subscribe` writes for a run of delivered signals: a line per
   * signal, in order, until the first body that is not all strings, which
   * ends the command.
   */
  function SubscribeTranscript(events: seq<Signal>): (t: Transcript)
    ensures t.panic.None? ==> |t.stdout| >= |events|
    decreases |events|
  {
    if events == [] then Transcript("", None)
    else match SubscribeLine(events[0].body)
      case Failure(e) => Transcript("", Some(e))
      case Success(line) => After(line, SubscribeTranscript(events[1..]))
  }

  /** The `subscribe` receive loop: renders each delivered signal in turn. */
  method Subscribe(events: seq<Signal>) returns (stdout: string, panic: Option<PayloadError>)
    ensures Transcript(stdout, panic) == SubscribeTranscript(events)
  {
    stdout := "";
    var i := 0;
    while i < |events|
      invariant 0 <= i <= |events|
      invariant SubscribeTranscript(events) == After(stdout, SubscribeTranscript(events[i..]))
    {
      assert events[i..][0] == events[i] && events[i..][1..] == events[i + 1..];
      var strs := InterfacesToStrings(events[i].body);
      if strs.Failure? {
        return stdout, Some(strs.error);
      }
      stdout := stdout + Join(strs.value, Space) + "\n";
      i := i + 1;
    }
    assert events[i..] == [];
    panic := None;
  }

  /**
   * Why `once` ended without output: the channel closed before any signal
   * arrived (the receive yields a nil signal, and reading its body panics),
   * or the first signal's body is not all strings.
   */
  datatype OnceError = ChannelClosed | BadPayload(payload: PayloadError)

  /**
   * The `once` command: reads the first delivered signal only and renders
   * its body.
   */
  method Once(events: seq<Signal>) returns (r: Result<string, OnceError>)
    ensures r == Failure(ChannelClosed) <==> events == []
    ensures events != [] && OnceLine(events[0].body).Success? ==>
      r == Success(OnceLine(events[0].body).value)
    ensures events != [] && OnceLine(events[0].body).Failure? ==>
      r == Failure(BadPayload(OnceLine(events[0].body).error))
  {
    if events == [] {
      return Failure(ChannelClosed);
    }
    var v := events[0];
    var strs := InterfacesToStrings(v.body);
    if strs.Failure? {
      return Failure(BadPayload(strs.error));
    }
    r := Success(Join(strs.value, Space));
  }

  /** The arguments `publish` hands to the bus's emit call. */
  datatype Emission = Emission(path: string, name: string, body: seq<Value>)

  /** The `publish` command: the path and name verbatim and the arguments as string values. */
  method Publish(path: string, name: string, args: seq<string>) returns (e: Emission)
    ensures e == Emission(path, name, ToValues(args))
  {
    var body := StringsToInterfaces(args);
    e := Emission(path, name, body);
  }

  /**
   * Both renderings succeed exactly when the body is all strings, and the
   * subscribe line is the once output followed by exactly one newline.
   */
  lemma SubscribeLineIsOnceLine(body: seq<Value>)
    ensures SubscribeLine(body).Success? <==> AllStrings(body)
    ensures OnceLine(body).Success? <==> AllStrings(body)
    ensures SubscribeLine(body).Success? ==>
      SubscribeLine(body).value == OnceLine(body).value + "\n"
    ensures !AllStrings(body) ==> SubscribeLine(body) == OnceLine(body)
  {
  }

  /**
   * A rendered line splits back on spaces into the arguments when there is
   * at least one argument and none of them contains a space.
   */
  lemma OnceLineRoundTrip(args: seq<string>)
    requires |args| >= 1
    requires forall i :: 0 <= i < |args| ==> ' ' !in args[i]
    ensures OnceLine(ToValues(args)).Success?
    ensures Split(OnceLine(ToValues(args)).value, ' ') == args
  {
    StringsRoundTrip(args);
    SplitJoin(args, ' ');
  }

  /**
   * Signals after the first bad body are never rendered; before it, the
   * output of a run is the output of its parts in order.
   */
  lemma {:induction false} SubscribeAppend(a: seq<Signal>, b: seq<Signal>)
    ensures SubscribeTranscript(a).panic.Some? ==>
      SubscribeTranscript(a + b) == SubscribeTranscript(a)
    ensures SubscribeTranscript(a).panic.None? ==>
      SubscribeTranscript(a + b) == After(SubscribeTranscript(a).stdout, SubscribeTranscript(b))
    decreases |a|
  {
    if a == [] {
      assert a + b == b;
    } else {
      assert (a + b)[0] == a[0] && (a + b)[1..] == a[1..] + b;
      SubscribeAppend(a[1..], b);
    }
  }

  /**
   * `subscribe` panics exactly when some body is not all strings, and the
   * panic carries the error of the first such body.
   */
  lemma {:induction false} SubscribePanics(events: seq<Signal>)
    ensures SubscribeTranscript(events).panic.None? <==>
      forall k :: 0 <= k < |events| ==> AllStrings(events[k].body)
    ensures SubscribeTranscript(events).panic.Some? ==>
      exists k :: 0 <= k < |events| && !AllStrings(events[k].body) &&
        (forall j :: 0 <= j < k ==> AllStrings(events[j].body)) &&
        SubscribeTranscript(events).panic.value == AsStrings(events[k].body).error
    decreases |events|
  {
    if events != [] {
      SubscribePanics(events[1..]);
      assert forall k :: 1 <= k < |events| ==> events[k] == events[1..][k - 1];
      var t := SubscribeTranscript(events);
      if AllStrings(events[0].body) && t.panic.Some? {
        var k :| 0 <= k < |events[1..]| && !AllStrings(events[1..][k].body) &&
          (forall j :: 0 <= j < k ==> AllStrings(events[1..][j].body)) &&
          t.panic.value == AsStrings(events[1..][k].body).error;
        assert !AllStrings(events[k + 1].body);
      }
      if !AllStrings(events[0].body) {
        assert t.panic.value == AsStrings(events[0].body).error;
      }
    }
  }

  /**
   * When every body value is a string without a newline, `subscribe`
   * writes one line per signal: splitting its output on newlines gives the
   * once output of each signal in order, then the empty text after the
   * last newline.
   */
  lemma {:induction false} OneLinePerSignal(events: seq<Signal>)
    requires forall k, i :: 0 <= k < |events| && 0 <= i < |events[k].body| ==>
      events[k].body[i].String? && '\n' !in events[k].body[i].s
    ensures SubscribeTranscript(events).panic.None?
    ensures var lines := Split(SubscribeTranscript(events).stdout, '\n');
      |lines| == |events| + 1 && lines[|events|] == "" &&
      forall k :: 0 <= k < |events| ==> OnceLine(events[k].body) == Success(lines[k])
    decreases |events|
  {
    if events != [] {
      var body := events[0].body;
      OneLinePerSignal(events[1..]);
      var strs := AsStrings(body).value;
      assert forall i :: 0 <= i < |strs| ==> '\n' !in strs[i] by {
        assert forall i :: 0 <= i < |strs| ==> body[i] == String(strs[i]);
      }
      JoinAvoids(strs, Space, '\n');
      var line := Join(strs, Space);
      var rest := SubscribeTranscript(events[1..]).stdout;
      assert SubscribeTranscript(events).stdout == line + ['\n'] + rest;
      SplitAroundSep(line, rest, '\n');
      SplitWithoutSep(line, '\n');
      var lines := Split(SubscribeTranscript(events).stdout, '\n');
      assert lines == [line] + Split(rest, '\n');
      forall k | 1 <= k < |events|
        ensures OnceLine(events[k].body) == Success(lines[k])
      {
        assert events[k] == events[1..][k - 1];
      }
    }
  }

  /**
   * `once` renders what the first line of `subscribe` would be, without its
   * newline; on a bad first body both fail with the same error and write
   * nothing.
   */
  lemma OnceIsFirstSubscribeLine(events: seq<Signal>)
    requires |events| >= 1
    ensures OnceLine(events[0].body).Success? ==>
      HasPrefix(SubscribeTranscript(events).stdout, OnceLine(events[0].body).value + "\n")
    ensures OnceLine(events[0].body).Failure? ==>
      SubscribeTranscript(events) == Transcript("", Some(OnceLine(events[0].body).error))
  {
    var s := SubscribeTranscript(events).stdout;
    if OnceLine(events[0].body).Success? {
      var p := OnceLine(events[0].body).value + "\n";
      assert s == p + SubscribeTranscript(events[1..]).stdout;
      assert s[..|p|] == p;
    }
  }

  /**
   * What `publish` emits from path P, with arguments, is observed by a
   * `subscribe` or `once` filtering on the same exact path and name: when
   * the bus delivers it with an interface and member that spell the name,
   * the filter admits it and its body renders as the arguments joined by
   * spaces.
   */
  lemma PublishThenReceive(path: string, name: string, args: seq<string>,
                           iface: string, member: string)
    requires path != "" && !HasSuffix(path, Filter.Wildcard)
    requires '.' !in member && iface + "." + member == name
    ensures var sig := Signal(path, iface, member, ToValues(args));
      Matches(Filter.SignalOptions(path, name), sig) &&
      OnceLine(sig.body) == Success(Join(args, Space))
  {
    var sig := Signal(path, iface, member, ToValues(args));
    assert '.' in name by {
      assert name[|iface|] == '.';
    }
    Filter.FilterAdmits(path, name, sig);
    StringsRoundTrip(args);
  }
}
