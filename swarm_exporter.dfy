/**
 * The Prometheus exporter of stacks/monitoring: on every GET it runs
 * `docker node ls` and `docker service ls`, turns each line of their output
 * into samples of `swarm_node_info` and of the running and desired replica
 * gauges, and answers with the exposition text.
 *
 * `Scrape` is the handler as the source writes it, a list built up by two
 * loops; `Scraped` is the same reply defined line by line through `Samples`,
 * and the lemmas below state what that text holds.
 */
module SwarmExporter {
  import opened Wrappers
  import opened PyText
  import opened Http

  const NodeCommand: seq<string> := ["docker", "node", "ls", "--format", "{{.Hostname}} {{.ManagerStatus}}"]
  const ServiceCommand: seq<string> := ["docker", "service", "ls", "--format", "{{.Name}} {{.Replicas}}"]
  const TextType: Header := ("Content-Type", "text/plain")

  const NodeMetric := "swarm_node_info"
  const RunningMetric := "swarm_service_replicas_running"
  const DesiredMetric := "swarm_service_replicas_desired"

  function HelpLine(metric: string, help: string): string {
    "# HELP " + metric + " " + help
  }

  function TypeLine(metric: string): string {
    "# TYPE " + metric + " gauge"
  }

  const NodeHeader: seq<string> := [HelpLine(NodeMetric, "Node info"), TypeLine(NodeMetric)]
  const ServiceHeader: seq<string> := [
    "",
    HelpLine(RunningMetric, "Running"), TypeLine(RunningMetric),
    HelpLine(DesiredMetric, "Desired"), TypeLine(DesiredMetric)]

  /** `stdout.strip().split("\n")` */
  function OutputLines(stdout: string): (r: seq<string>)
    ensures |r| >= 1 && forall j :: 0 <= j < |r| ==> '\n' !in r[j]
  {
    SplitPiecesAvoidNewline(StripSpace(stdout));
    Split(StripSpace(stdout), "\n")
  }

  /** `"manager" if len(p) > 1 and p[1] else "worker"` */
  function NodeRole(p: seq<string>): string {
    if |p| > 1 && p[1] != "" then "manager" else "worker"
  }

  function NodeInfo(hostname: string, role: string): string {
    "swarm_node_info{hostname=\"" + hostname + "\",role=\"" + role + "\"} 1"
  }

  function RunningReplicas(service: string, value: string): string {
    "swarm_service_replicas_running{service_name=\"" + service + "\"} " + value
  }

  function DesiredReplicas(service: string, value: string): string {
    "swarm_service_replicas_desired{service_name=\"" + service + "\"} " + value
  }

  /**
   * The samples for one non-empty `docker node ls` line: one `swarm_node_info`
   * line for the first word; `p[0]` raises IndexError when there is none.
   */
  function NodeRows(line: string): (r: Result<seq<string>>)
    ensures r.Ok? ==> |r.value| == 1
  {
    var p := Words(line);
    if p == [] then Err("IndexError")
    else Ok([NodeInfo(p[0], NodeRole(p))])
  }

  /**
   * The samples for one non-empty `docker service ls` line: running, then
   * desired, from the pieces of the second word split at '/'.  A line with
   * fewer than two words, or a second word without '/', raises IndexError.
   */
  function ServiceRows(line: string): (r: Result<seq<string>>)
    ensures r.Ok? ==> |r.value| == 2
  {
    var p := Words(line);
    if |p| < 2 then Err("IndexError")
    else
      var replicas := Split(p[1], "/");
      if |replicas| < 2 then Err("IndexError")
      else Ok([RunningReplicas(p[0], replicas[0]), DesiredReplicas(p[0], replicas[1])])
  }

  /** A sample line never holds a newline: its words and their pieces hold no whitespace. */
  lemma RowsLackNewline(section: Section, line: string)
    requires Rows(section, line).Ok?
    ensures forall j :: 0 <= j < |Rows(section, line).value| ==> '\n' !in Rows(section, line).value[j]
  {
    var p := Words(line);
    assert IsSpace('\n');
    assert '\n' !in p[0];
    match section
    case Nodes =>
      NodeInfoLacksNewline(p[0], NodeRole(p));
    case Services =>
      assert '\n' !in p[1];
      var replicas := Split(p[1], "/");
      SplitPiecesLack(p[1], "/", '\n');
      ReplicasLackNewline(p[0], replicas[0], replicas[1]);
  }

  lemma NodeInfoLacksNewline(hostname: string, role: string)
    requires '\n' !in hostname && (role == "manager" || role == "worker")
    ensures '\n' !in NodeInfo(hostname, role)
  {
    var s := NodeInfo(hostname, role);
    var head := "swarm_node_info{hostname=\"";
    var tail := "\",role=\"" + role + "\"} 1";
    assert s == head + hostname + tail;
    assert '\n' !in head;
    assert '\n' !in tail;
  }

  lemma ReplicasLackNewline(service: string, running: string, desired: string)
    requires '\n' !in service && '\n' !in running && '\n' !in desired
    ensures '\n' !in RunningReplicas(service, running) && '\n' !in DesiredReplicas(service, desired)
  {
    var s := RunningReplicas(service, running);
    var t := DesiredReplicas(service, desired);
    var mid := "\"} ";
    var running0 := "swarm_service_replicas_running{service_name=\"";
    var desired0 := "swarm_service_replicas_desired{service_name=\"";
    assert '\n' !in mid && '\n' !in running0 && '\n' !in desired0;
    assert s == running0 + service + mid + running;
    assert t == desired0 + service + mid + desired;
  }

  /** Which of the two commands a line comes from. */
  datatype Section = Nodes | Services

  function Rows(section: Section, line: string): Result<seq<string>> {
    match section
    case Nodes => NodeRows(line)
    case Services => ServiceRows(line)
  }

  /**
   * What one of the two loops appends for `lines`: the rows of each non-empty
   * line in order, or the error of the first line that raises.
   */
  function Samples(lines: seq<string>, section: Section): Result<seq<string>>
    decreases |lines|
  {
    if lines == [] then Ok([])
    else
      match Samples(lines[..|lines| - 1], section)
      case Err(e) => Err(e)
      case Ok(acc) =>
        var line := lines[|lines| - 1];
        if line == "" then Ok(acc)
        else
          match Rows(section, line)
          case Err(e) => Err(e)
          case Ok(more) => Ok(acc + more)
  }

  /** `"\n".join(lines) + "\n"` */
  function Render(lines: seq<string>): string {
    Join("\n", lines) + "\n"
  }

  /** The exposition text for the two outputs, or the exception a line raises. */
  function Exposition(nodeOut: string, serviceOut: string): Result<string> {
    match Samples(OutputLines(nodeOut), Nodes)
    case Err(e) => Err(e)
    case Ok(nodes) =>
      match Samples(OutputLines(serviceOut), Services)
      case Err(e) => Err(e)
      case Ok(services) => Ok(Render(NodeHeader + nodes + ServiceHeader + services))
  }

  /**
   * The reply and the commands run.  The output of a command is used whatever
   * its exit status; an exception (docker missing, a line that fails to parse)
   * escapes the handler, and the service command only runs once the node lines
   * have all been handled.
   */
  function Scraped(run: Runner): Handled {
    match run(NodeCommand)
    case Raised(e) => Handled(Dropped(e), [NodeCommand])
    case Exited(_, nodeOut, _) =>
      match Samples(OutputLines(nodeOut), Nodes)
      case Err(e) => Handled(Dropped(e), [NodeCommand])
      case Ok(_) =>
        match run(ServiceCommand)
        case Raised(e) => Handled(Dropped(e), [NodeCommand, ServiceCommand])
        case Exited(_, serviceOut, _) =>
          match Exposition(nodeOut, serviceOut)
          case Err(e) => Handled(Dropped(e), [NodeCommand, ServiceCommand])
          case Ok(text) => Handled(Reply(200, [TextType], Text(text)), [NodeCommand, ServiceCommand])
  }

  /**
   * `Handler.do_GET`: the header lines, one loop over the node lines, the
   * separator and the replica headers, one loop over the service lines, then
   * the joined text.
   */
  method Scrape(run: Runner) returns (h: Handled)
    ensures h == Scraped(run)
  {
    var commands := [NodeCommand];
    var result := run(NodeCommand);
    if result.Raised? {
      return Handled(Dropped(result.exception), commands);
    }
    var nodeOut := result.stdout;
    var nodes := AppendSamples(OutputLines(nodeOut), Nodes);
    if nodes.Err? {
      return Handled(Dropped(nodes.error), commands);
    }
    commands := [NodeCommand, ServiceCommand];
    result := run(ServiceCommand);
    if result.Raised? {
      return Handled(Dropped(result.exception), commands);
    }
    var services := AppendSamples(OutputLines(result.stdout), Services);
    if services.Err? {
      return Handled(Dropped(services.error), commands);
    }
    var lines := NodeHeader + nodes.value + ServiceHeader + services.value;
    assert Exposition(nodeOut, result.stdout) == Ok(Render(lines));
    h := Handled(Reply(200, [TextType], Text(Join("\n", lines) + "\n")), commands);
  }

  /**
   * One `for line in ...: if line: ...` loop: the rows appended for each
   * non-empty line, stopping at the first line that raises.
   */
  method AppendSamples(outLines: seq<string>, section: Section) returns (r: Result<seq<string>>)
    ensures r == Samples(outLines, section)
  {
    var lines: seq<string> := [];
    var i := 0;
    while i < |outLines|
      invariant 0 <= i <= |outLines|
      invariant Samples(outLines[..i], section) == Ok(lines)
    {
      var line := outLines[i];
      SamplesExtend(outLines, i, section, lines);
      if line != "" {
        var rows := Rows(section, line);
        if rows.Err? {
          SamplesFailFast(outLines, i + 1, section);
          return Err(rows.error);
        }
        lines := lines + rows.value;
      }
      i := i + 1;
    }
    assert outLines[..i] == outLines;
    r := Ok(lines);
  }

  // ----- the per-line loops -----

  /** One more line extends what the loop has appended so far by that line's rows, or raises. */
  lemma SamplesExtend(lines: seq<string>, i: nat, section: Section, acc: seq<string>)
    requires i < |lines| && Samples(lines[..i], section) == Ok(acc)
    ensures Samples(lines[..i + 1], section)
            == if lines[i] == "" then Ok(acc)
               else if Rows(section, lines[i]).Err? then Err(Rows(section, lines[i]).error)
               else Ok(acc + Rows(section, lines[i]).value)
  {
    assert lines[..i + 1][..i] == lines[..i];
  }

  /** Once a prefix of the lines raises, so does the whole loop, with the same exception. */
  lemma {:induction false} SamplesFailFast(lines: seq<string>, i: nat, section: Section)
    requires i <= |lines| && Samples(lines[..i], section).Err?
    ensures Samples(lines, section) == Samples(lines[..i], section)
    decreases |lines|
  {
    if i < |lines| {
      var init := lines[..|lines| - 1];
      assert init[..i] == lines[..i];
      SamplesFailFast(init, i, section);
    } else {
      assert lines[..i] == lines;
    }
  }

  /** The non-empty lines, in order. */
  function NonEmpty(lines: seq<string>): (r: seq<string>)
    ensures |r| <= |lines|
    ensures forall j :: 0 <= j < |r| ==> r[j] != "" && r[j] in lines
    decreases |lines|
  {
    if lines == [] then []
    else NonEmpty(lines[..|lines| - 1]) + (if lines[|lines| - 1] == "" then [] else [lines[|lines| - 1]])
  }

  /** The non-empty lines are every line but the empty ones, each as often as it occurs. */
  lemma {:induction false} NonEmptyCounts(lines: seq<string>)
    ensures multiset(NonEmpty(lines)) == multiset(lines)["" := 0]
    decreases |lines|
  {
    if lines != [] {
      var init := lines[..|lines| - 1];
      assert lines == init + [lines[|lines| - 1]];
      NonEmptyCounts(init);
    }
  }

  /** Dropping empty lines works piecewise: the lines of a concatenation are those of each part, in order. */
  lemma {:induction false} NonEmptyAppend(a: seq<string>, b: seq<string>)
    ensures NonEmpty(a + b) == NonEmpty(a) + NonEmpty(b)
    decreases |b|
  {
    if b == [] {
      assert a + b == a;
    } else {
      var init := b[..|b| - 1];
      assert (a + b)[..|a + b| - 1] == a + init;
      NonEmptyAppend(a, init);
    }
  }

  /** The loop raises exactly when some non-empty line raises. */
  lemma SamplesFailIff(lines: seq<string>, section: Section)
    ensures Samples(lines, section).Err?
            <==> exists k :: 0 <= k < |lines| && lines[k] != "" && Rows(section, lines[k]).Err?
  {
    if Samples(lines, section).Err? {
      var k := FailingLine(lines, section);
    }
    if exists k :: 0 <= k < |lines| && lines[k] != "" && Rows(section, lines[k]).Err? {
      var k :| 0 <= k < |lines| && lines[k] != "" && Rows(section, lines[k]).Err?;
      LineFails(lines, section, k);
    }
  }

  /** A loop that raises has a non-empty line `k` that raises. */
  lemma {:induction false} FailingLine(lines: seq<string>, section: Section) returns (k: nat)
    requires Samples(lines, section).Err?
    ensures k < |lines| && lines[k] != "" && Rows(section, lines[k]).Err?
    decreases |lines|
  {
    var init := lines[..|lines| - 1];
    if Samples(init, section).Err? {
      k := FailingLine(init, section);
      assert lines[k] == init[k];
    } else {
      k := |lines| - 1;
    }
  }

  /** A non-empty line that raises makes the whole loop raise. */
  lemma LineFails(lines: seq<string>, section: Section, k: nat)
    requires k < |lines| && lines[k] != "" && Rows(section, lines[k]).Err?
    ensures Samples(lines, section).Err?
  {
    var prefix := lines[..k + 1];
    assert prefix[..k] == lines[..k];
    assert prefix[k] == lines[k];
    assert Samples(prefix, section).Err?;
    SamplesFailFast(lines, k + 1, section);
  }

  /** A node loop that completes yields one `swarm_node_info` line per non-empty line, in input order. */
  lemma {:induction false} NodeSamplesInOrder(lines: seq<string>)
    requires Samples(lines, Nodes).Ok?
    ensures |Samples(lines, Nodes).value| == |NonEmpty(lines)|
    ensures forall k :: 0 <= k < |NonEmpty(lines)| ==>
      NodeRows(NonEmpty(lines)[k]).Ok? && Samples(lines, Nodes).value[k] == NodeRows(NonEmpty(lines)[k]).value[0]
    decreases |lines|
  {
    if lines != [] {
      var init := lines[..|lines| - 1];
      var line := lines[|lines| - 1];
      NodeSamplesInOrder(init);
      if line != "" {
        assert NonEmpty(lines) == NonEmpty(init) + [line];
      }
    }
  }

  /**
   * A service loop that completes yields two lines per non-empty line, running
   * then desired, in input order.
   */
  lemma {:induction false} ServiceSamplesInOrder(lines: seq<string>)
    requires Samples(lines, Services).Ok?
    ensures |Samples(lines, Services).value| == 2 * |NonEmpty(lines)|
    ensures forall k :: 0 <= k < |NonEmpty(lines)| ==>
      && ServiceRows(NonEmpty(lines)[k]).Ok?
      && Samples(lines, Services).value[2 * k] == ServiceRows(NonEmpty(lines)[k]).value[0]
      && Samples(lines, Services).value[2 * k + 1] == ServiceRows(NonEmpty(lines)[k]).value[1]
    decreases |lines|
  {
    if lines != [] {
      var init := lines[..|lines| - 1];
      var line := lines[|lines| - 1];
      ServiceSamplesInOrder(init);
      if line != "" {
        assert NonEmpty(lines) == NonEmpty(init) + [line];
      }
    }
  }

  /** Every exception a line can raise is IndexError. */
  lemma {:induction false} SamplesRaiseIndexError(lines: seq<string>, section: Section)
    ensures Samples(lines, section).Err? ==> Samples(lines, section).error == "IndexError"
    decreases |lines|
  {
    if lines != [] {
      SamplesRaiseIndexError(lines[..|lines| - 1], section);
    }
  }

  // ----- what one line yields -----

  /** A node line that parses gives its first word as hostname, and `manager` exactly when it has a second word. */
  lemma NodeLineFields(line: string)
    requires NodeRows(line).Ok?
    ensures Words(line) != []
    ensures NodeRows(line).value == [NodeInfo(Words(line)[0], if HasTwoWords(line) then "manager" else "worker")]
  {
    TwoWords(line);
  }

  /** A node line raises exactly when it is whitespace only. */
  lemma NodeLineFails(line: string)
    ensures NodeRows(line).Err? <==> forall k :: 0 <= k < |line| ==> IsSpace(line[k])
  {
    WordsEmpty(line);
  }

  /** A service line raises exactly when it has fewer than two words or its second word has no '/'. */
  lemma ServiceLineFails(line: string)
    ensures ServiceRows(line).Err? <==> |Words(line)| < 2 || '/' !in Words(line)[1]
  {
    if |Words(line)| >= 2 {
      SplitInTwoIff(Words(line)[1], '/');
    }
  }

  /**
   * A service line that parses gives its running value `a` and desired value `b`
   * as the text before the first '/' of the second word and the text between
   * that '/' and the next one (or the end).
   */
  lemma ServiceLineFields(line: string) returns (a: string, b: string)
    requires ServiceRows(line).Ok?
    ensures |Words(line)| >= 2
    ensures ServiceRows(line).value == [RunningReplicas(Words(line)[0], a), DesiredReplicas(Words(line)[0], b)]
    ensures ReplicaFields(Words(line)[1], a, b)
  {
    var field := Words(line)[1];
    var replicas := Split(field, "/");
    a, b := replicas[0], replicas[1];
    ReplicaPieces(field, a, b);
  }

  /**
   * `a` is the text of `field` before its first '/', and `b` the text after
   * that '/' up to the next one or the end.
   */
  predicate ReplicaFields(field: string, a: string, b: string) {
    && StartsWith(field, a + "/" + b) && '/' !in a && '/' !in b
    && (|a| + 1 + |b| == |field| || field[|a| + 1 + |b|] == '/')
  }

  lemma ReplicaPieces(field: string, a: string, b: string)
    requires |Split(field, "/")| >= 2 && Split(field, "/")[0] == a && Split(field, "/")[1] == b
    ensures ReplicaFields(field, a, b)
  {
    FirstPieceEnds(field, a);
    var tail := field[|a| + 1..];
    SplitAfterPiece(field, a);
    assert Split(tail, "/")[0] == b;
    FirstPiece(tail, "/");
    NoSlash(b);
    ReplicaFieldsFrom(field, a, b, tail);
  }

  /** The first piece of a field that splits in two ends at a '/'. */
  lemma FirstPieceEnds(field: string, a: string)
    requires |Split(field, "/")| >= 2 && Split(field, "/")[0] == a
    ensures |a| < |field| && field[|a|] == '/' && '/' !in a && StartsWith(field, a)
  {
    FirstPiece(field, "/");
    NoSlash(a);
    OccursOneChar(field, '/', |a|);
  }

  lemma ReplicaFieldsFrom(field: string, a: string, b: string, tail: string)
    requires |a| < |field| && field[|a|] == '/' && '/' !in a && StartsWith(field, a)
    requires tail == field[|a| + 1..] && StartsWith(tail, b) && '/' !in b
    requires |b| == |tail| || OccursAt(tail, "/", |b|)
    ensures ReplicaFields(field, a, b)
  {
    assert field[..|a| + 1 + |b|] == a + "/" + b by {
      assert field[..|a| + 1] == a + "/";
      assert field[|a| + 1..|a| + 1 + |b|] == tail[..|b|];
    }
    if |a| + 1 + |b| < |field| {
      OccursOneChar(tail, '/', |b|);
      assert field[|a| + 1 + |b|] == tail[|b|];
    }
  }

  /** A piece in which "/" does not occur holds no '/'. */
  lemma NoSlash(s: string)
    requires Find(s, "/").None?
    ensures '/' !in s
  {
    if '/' in s {
      var k :| 0 <= k < |s| && s[k] == '/';
      OccursOneChar(s, '/', k);
    }
  }

  /** After the first piece and its '/', the pieces continue with those of the rest. */
  lemma SplitAfterPiece(field: string, a: string)
    requires |Split(field, "/")| >= 2 && Split(field, "/")[0] == a
    requires |a| < |field| && field[|a|] == '/' && '/' !in a && StartsWith(field, a)
    ensures Split(field, "/")[1..] == Split(field[|a| + 1..], "/")
  {
    OccursOneChar(field, '/', |a|);
    forall k | 0 <= k < |a| ensures !OccursAt(field, "/", k) {
      OccursOneChar(field, '/', k);
      assert field[k] == a[k];
    }
    assert Find(field, "/") == Some(|a|);
  }

  // ----- what the exposition holds -----

  /**
   * A completed exposition ends with a newline and splits back at '\n' into
   * exactly the header, node, separator-and-header and service lines, in that
   * order.
   */
  lemma ExpositionLines(nodeOut: string, serviceOut: string, nodes: seq<string>, services: seq<string>)
    requires Samples(OutputLines(nodeOut), Nodes) == Ok(nodes)
    requires Samples(OutputLines(serviceOut), Services) == Ok(services)
    ensures Exposition(nodeOut, serviceOut).Ok?
    ensures var text := Exposition(nodeOut, serviceOut).value;
      && text != [] && text[|text| - 1] == '\n'
      && Split(text[..|text| - 1], "\n") == NodeHeader + nodes + ServiceHeader + services
  {
    NodeSamplesLackNewline(OutputLines(nodeOut), nodes);
    ServiceSamplesLackNewline(OutputLines(serviceOut), services);
    HeadersLackNewline();
    var all := NodeHeader + nodes + ServiceHeader + services;
    forall j | 0 <= j < |all| ensures '\n' !in all[j] {
      if j < 2 {
        assert all[j] == NodeHeader[j];
      } else if j < 2 + |nodes| {
        assert all[j] == nodes[j - 2];
      } else if j < 7 + |nodes| {
        assert all[j] == ServiceHeader[j - 2 - |nodes|];
      } else {
        assert all[j] == services[j - 7 - |nodes|];
      }
    }
    RenderSplits(all);
  }

  /** The fixed HELP and TYPE lines hold no newline. */
  lemma HeadersLackNewline()
    ensures |NodeHeader| == 2 && |ServiceHeader| == 5
    ensures forall j :: 0 <= j < 2 ==> '\n' !in NodeHeader[j]
    ensures forall j :: 0 <= j < 5 ==> '\n' !in ServiceHeader[j]
  {
    NodeHeaderLacksNewline();
    ServiceHeaderLacksNewline();
  }

  lemma NodeHeaderLacksNewline()
    ensures |NodeHeader| == 2 && '\n' !in NodeHeader[0] && '\n' !in NodeHeader[1]
  {
    var help := "Node info";
    assert '\n' !in NodeMetric && '\n' !in help;
    HeaderLinesLackNewline(NodeMetric, help);
  }

  lemma ServiceHeaderLacksNewline()
    ensures |ServiceHeader| == 5
    ensures '\n' !in ServiceHeader[0] && '\n' !in ServiceHeader[1] && '\n' !in ServiceHeader[2]
    ensures '\n' !in ServiceHeader[3] && '\n' !in ServiceHeader[4]
  {
    var running, desired := "Running", "Desired";
    assert '\n' !in RunningMetric && '\n' !in running;
    assert '\n' !in DesiredMetric && '\n' !in desired;
    HeaderLinesLackNewline(RunningMetric, running);
    HeaderLinesLackNewline(DesiredMetric, desired);
  }

  lemma HeaderLinesLackNewline(metric: string, help: string)
    requires '\n' !in metric && '\n' !in help
    ensures '\n' !in HelpLine(metric, help) && '\n' !in TypeLine(metric)
  {
    var help0, type0, gauge := "# HELP ", "# TYPE ", " gauge";
    assert '\n' !in help0 && '\n' !in type0 && '\n' !in gauge;
    assert HelpLine(metric, help) == help0 + metric + " " + help;
    assert TypeLine(metric) == type0 + metric + gauge;
  }

  /**
   * When both commands run, the reply is 200 with the exposition as text, or
   * no reply when a line raises IndexError; both commands ran either way
   * unless a node line raised first.
   */
  lemma ScrapedReply(run: Runner)
    requires run(NodeCommand).Exited? && run(ServiceCommand).Exited?
    ensures var e := Exposition(run(NodeCommand).stdout, run(ServiceCommand).stdout);
      && (e.Ok? ==> Scraped(run) == Handled(Reply(200, [TextType], Text(e.value)), [NodeCommand, ServiceCommand]))
      && (e.Err? ==> Scraped(run).reply == Dropped("IndexError"))
  {
    SamplesRaiseIndexError(OutputLines(run(NodeCommand).stdout), Nodes);
    SamplesRaiseIndexError(OutputLines(run(ServiceCommand).stdout), Services);
  }

  /** Text rendered from lines without newlines splits back into those lines. */
  lemma RenderSplits(all: seq<string>)
    requires |all| >= 1 && forall j :: 0 <= j < |all| ==> '\n' !in all[j]
    ensures var text := Render(all);
      text != [] && text[|text| - 1] == '\n' && Split(text[..|text| - 1], "\n") == all
  {
    SplitJoinOneChar(all, '\n');
    var text := Render(all);
    assert text[..|text| - 1] == Join("\n", all);
  }

  /** The exposition begins with the HELP line and the TYPE line of `swarm_node_info`, in that order. */
  lemma ExpositionBegins(nodes: seq<string>, services: seq<string>)
    ensures StartsWith(Render(NodeHeader + nodes + ServiceHeader + services),
                       NodeHeader[0] + "\n" + NodeHeader[1] + "\n")
  {
    var all := NodeHeader + nodes + ServiceHeader + services;
    var rest := all[2..];
    assert all == [all[0]] + ([all[1]] + rest);
    assert ([all[1]] + rest)[1..] == rest;
    assert Join("\n", all) == all[0] + "\n" + (all[1] + "\n" + Join("\n", rest));
  }

  lemma NodeSamplesLackNewline(lines: seq<string>, nodes: seq<string>)
    requires Samples(lines, Nodes) == Ok(nodes)
    ensures forall j :: 0 <= j < |nodes| ==> '\n' !in nodes[j]
  {
    NodeSamplesInOrder(lines);
    forall j | 0 <= j < |nodes| ensures '\n' !in nodes[j] {
      RowsLackNewline(Nodes, NonEmpty(lines)[j]);
    }
  }

  lemma ServiceSamplesLackNewline(lines: seq<string>, services: seq<string>)
    requires Samples(lines, Services) == Ok(services)
    ensures forall j :: 0 <= j < |services| ==> '\n' !in services[j]
  {
    ServiceSamplesInOrder(lines);
    forall j | 0 <= j < |services| ensures '\n' !in services[j] {
      var k := j / 2;
      RowsLackNewline(Services, NonEmpty(lines)[k]);
      if j == 2 * k {
        assert services[j] == ServiceRows(NonEmpty(lines)[k]).value[0];
      } else {
        assert j == 2 * k + 1;
        assert services[j] == ServiceRows(NonEmpty(lines)[k]).value[1];
      }
    }
  }

  /** No piece of `s.split("\n")` holds a newline. */
  lemma SplitPiecesAvoidNewline(s: string)
    ensures forall j :: 0 <= j < |Split(s, "\n")| ==> '\n' !in Split(s, "\n")[j]
  {
    SplitPiecesAvoidSeparator(s, "\n");
    forall j | 0 <= j < |Split(s, "\n")| ensures '\n' !in Split(s, "\n")[j] {
      NoNewline(Split(s, "\n")[j]);
    }
  }

  lemma NoNewline(s: string)
    requires Find(s, "\n").None?
    ensures '\n' !in s
  {
    if '\n' in s {
      var k :| 0 <= k < |s| && s[k] == '\n';
      OccursOneChar(s, '\n', k);
    }
  }
}
