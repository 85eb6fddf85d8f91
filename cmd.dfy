/** The argument-vector logic of the command adapters in lib/adapter/cmd.py: the
    adapters that answer a query by running an external program. What the program prints
    is outside the model; what is modelled is which program is run with which arguments,
    which topics the RFC adapter claims, and the list of pages it advertises.

    Python exceptions the code raises become `Err` values of `Result`. */
module CmdAdapter {
  import opened Strings

  datatype Error =
    | IndexError      // `cmd[0]` on an empty command list
    | ValueError      // unpacking `topic.split('/', 1)` when the topic has no "/"
    | AttributeError  // `request_options.get` when no options were passed (None)

  datatype Result<T> = Ok(value: T) | Err(error: Error)

  /** What a command adapter answers: a fixed text, or what running `argv` prints. */
  datatype Page = Text(text: string) | Output(argv: seq<string>)

  /** The script the RFC adapter runs, relative to the installation directory. */
  const RfcScript: string := "share/adapters/rfc.sh"

  /** The program the translation adapter names. */
  const TranslationProgram: string := "/home/igor/cheat.sh/bin/get_translation"

  /** Number of RFC pages the RFC adapter lists. */
  const RfcCount: nat := 8648

  // ---------------------------------------------------------------------------
  // _get_abspath

  /** `_get_abspath(path)`: paths starting with "/" are kept; any other path is joined
      (POSIX `os.path.join`) to `root`, the directory two levels above the running
      program, which is a parameter here. */
  function GetAbspath(path: string, root: string): (r: string)
    ensures StartsWith(path, "/") ==> r == path
    ensures !StartsWith(path, "/") ==> StartsWith(r, root) && EndsWith(r, path)
    ensures !StartsWith(path, "/") && root != [] && !EndsWith(root, "/") ==> r == root + "/" + path
    ensures StartsWith(root, "/") ==> StartsWith(r, "/")
  {
    if StartsWith(path, "/") then path
    else if root == [] || EndsWith(root, "/") then root + path
    else root + "/" + path
  }

  /** Resolving twice is resolving once, provided the root itself is absolute. */
  lemma AbspathIdempotent(path: string, root: string)
    requires StartsWith(root, "/")
    ensures GetAbspath(GetAbspath(path, root), root) == GetAbspath(path, root)
  {
  }

  // ---------------------------------------------------------------------------
  // CommandAdapter._get_page

  /** `CommandAdapter._get_page` once the command is known: an empty command gives the
      empty page without running anything; any other command is run as given. */
  function CommandPage(cmd: seq<string>): (r: Page)
    ensures r.Text? <==> cmd == []
    ensures r.Text? ==> r.text == ""
    ensures r.Output? ==> r.argv == cmd
  {
    if cmd == [] then Text("") else Output(cmd)
  }

  // ---------------------------------------------------------------------------
  // AdapterRfc

  /** The topics `re.match("rfc/[0-9]+$", topic)` accepts: "rfc/", one or more digits,
      and at most one final line feed (Python's `$` also matches before a final "\n"). */
  ghost predicate RfcTopic(topic: string)
  {
    exists ds :: |ds| > 0 && AllDigits(ds) && (topic == "rfc/" + ds || topic == "rfc/" + ds + "\n")
  }

  /** The end of the run of digits starting at `k`: `[0-9]+` is greedy. */
  function DigitRunEnd(s: string, k: nat): (r: nat)
    requires k <= |s|
    ensures k <= r <= |s| && AllDigits(s[k..r])
    ensures r < |s| ==> !IsDigit(s[r])
    decreases |s| - k
  {
    if k < |s| && IsDigit(s[k]) then
      var r := DigitRunEnd(s, k + 1);
      assert s[k..r] == [s[k]] + s[k + 1..r];
      r
    else k
  }

  /** A digit run that ends at `e` is the one the greedy scan finds. */
  lemma DigitRunEndAt(s: string, k: nat, e: nat)
    requires k <= e <= |s| && AllDigits(s[k..e]) && (e < |s| ==> !IsDigit(s[e]))
    ensures DigitRunEnd(s, k) == e
  {
    var r := DigitRunEnd(s, k);
    assert forall j :: k <= j < e ==> s[j] == s[k..e][j - k];
    assert forall j :: k <= j < r ==> s[j] == s[k..r][j - k];
  }

  /** `AdapterRfc.is_found`: the match is anchored at the start; after the greedy digit
      run only the end of the text, or a final line feed, may follow. */
  function IsFound(topic: string): (r: bool)
    ensures r <==> RfcTopic(topic)
  {
    if StartsWith(topic, "rfc/") then
      var e := DigitRunEnd(topic, 4);
      var found := e > 4 && (e == |topic| || (e == |topic| - 1 && topic[e] == '\n'));
      RfcTopicScan(topic, e, found);
      found
    else
      assert !RfcTopic(topic) by {
        forall ds: string ensures !("rfc/" + ds == topic || "rfc/" + ds + "\n" == topic)
        {
          assert ("rfc/" + ds)[..4] == "rfc/";
          assert ("rfc/" + ds + "\n")[..4] == "rfc/";
        }
      }
      false
  }

  /** The scan of `IsFound` decides `RfcTopic` for topics starting with "rfc/". */
  lemma RfcTopicScan(topic: string, e: nat, found: bool)
    requires StartsWith(topic, "rfc/") && e == DigitRunEnd(topic, 4)
    requires found == (e > 4 && (e == |topic| || (e == |topic| - 1 && topic[e] == '\n')))
    ensures found <==> RfcTopic(topic)
  {
    if found {
      ScanWitness(topic, e);
    }
    if RfcTopic(topic) {
      var ds :| |ds| > 0 && AllDigits(ds) && (topic == "rfc/" + ds || topic == "rfc/" + ds + "\n");
      ScanOfWitness(topic, ds);
    }
  }

  lemma ScanWitness(topic: string, e: nat)
    requires StartsWith(topic, "rfc/") && e == DigitRunEnd(topic, 4)
    requires e > 4 && (e == |topic| || (e == |topic| - 1 && topic[e] == '\n'))
    ensures RfcTopic(topic)
  {
    var ds := topic[4..e];
    assert AllDigits(ds) && |ds| > 0;
    SplitThree(topic, 4, e);
    if e == |topic| {
      assert topic[e..] == [];
      assert topic == "rfc/" + ds + [];
      assert topic == "rfc/" + ds;
    } else {
      assert topic[e..] == "\n";
      assert topic == "rfc/" + ds + "\n";
    }
  }

  lemma ScanOfWitness(topic: string, ds: string)
    requires |ds| > 0 && AllDigits(ds) && (topic == "rfc/" + ds || topic == "rfc/" + ds + "\n")
    ensures StartsWith(topic, "rfc/")
    ensures DigitRunEnd(topic, 4) == 4 + |ds|
    ensures 4 + |ds| == |topic| || (4 + |ds| == |topic| - 1 && topic[4 + |ds|] == '\n')
  {
    assert topic[..4] == "rfc/";
    assert topic[4..4 + |ds|] == ds;
    if topic == "rfc/" + ds + "\n" {
      assert |topic| == 5 + |ds| && topic[4 + |ds|] == '\n';
    }
    DigitRunEndAt(topic, 4, 4 + |ds|);
  }

  /** The page name of RFC number `n`. */
  function RfcName(n: nat): (r: string)
    ensures IsFound(r)
    ensures |r| > 4 && r[..4] == "rfc/" && AllDigits(r[4..]) && DecimalValue(r[4..]) == n
  {
    var r := "rfc/" + Decimal(n);
    assert r[4..] == Decimal(n);
    DecimalRoundTrip(n);
    assert RfcTopic(r) by {
      assert r == "rfc/" + Decimal(n);
    }
    r
  }

  /** The page names "rfc/1" up to "rfc/n", in this order. */
  function RfcNames(n: nat): (r: seq<string>)
    ensures |r| == n
    ensures forall i :: 0 <= i < n ==> r[i] == RfcName(i + 1)
  {
    seq(n, i requires 0 <= i < n => RfcName(i + 1))
  }

  /** `AdapterRfc._get_list`: "rfc/1" up to "rfc/8648", in increasing order of number. */
  function RfcList(): (r: seq<string>)
    ensures |r| == RfcCount
    ensures forall i :: 0 <= i < |r| ==>
      IsFound(r[i]) && |r[i]| > 4 && AllDigits(r[i][4..]) && DecimalValue(r[i][4..]) == i + 1
  {
    RfcNames(RfcCount)
  }

  /** The listed pages are exactly the found topics without a final line feed whose number
      has no leading zero and lies between 1 and 8648. */
  lemma RfcListMembers(topic: string)
    ensures topic in RfcList() <==> ListedName(topic)
  {
    if topic in RfcList() {
      ListedIsName(topic);
    }
    if ListedName(topic) {
      NameIsListed(topic);
    }
  }

  /** "rfc/" and a number from 1 to 8648 written without leading zeros. */
  predicate ListedName(topic: string)
  {
    |topic| > 4 && topic[..4] == "rfc/" && AllDigits(topic[4..]) && topic[4] != '0'
    && DecimalValue(topic[4..]) <= RfcCount
  }

  lemma ListedIsName(topic: string)
    requires topic in RfcList()
    ensures ListedName(topic)
  {
    var list := RfcList();
    var i :| 0 <= i < |list| && list[i] == topic;
    assert topic == RfcName(i + 1);
    assert topic[4..] == Decimal(i + 1);
    if |topic[4..]| == 1 {
      assert topic[4] == DigitChar(i + 1);
    } else {
      assert topic[4] == Decimal(i + 1)[0];
    }
  }

  lemma NameIsListed(topic: string)
    requires ListedName(topic)
    ensures topic in RfcList()
  {
    var ds := topic[4..];
    LeadingDigitPositive(ds);
    DecimalOfValue(ds);
    var n := DecimalValue(ds);
    assert topic == topic[..4] + ds;
    assert topic == RfcName(n);
    var list := RfcNames(RfcCount);
    assert list[n - 1] == RfcName(n);
  }

  /** The RFC adapter of lib/adapter/cmd.py. Its command list is a field that `GetCommand`
      reads and copies but never changes. */
  class AdapterRfc {
    var command: seq<string>

    constructor()
      ensures command == [RfcScript]
    {
      command := [RfcScript];
    }

    /** `AdapterRfc._get_command`: a copy of the command whose first element is made
        absolute, followed by the topic with one leading "rfc/" cut off. */
    method GetCommand(topic: string, root: string) returns (r: Result<seq<string>>)
      ensures r.Err? <==> command == []
      ensures r.Err? ==> r.error == IndexError
      ensures r.Ok? ==> |r.value| == |command| + 1
      ensures r.Ok? ==> r.value[0] == GetAbspath(command[0], root)
      ensures r.Ok? ==> r.value[1..|command|] == command[1..]
      ensures r.Ok? && StartsWith(topic, "rfc/") ==> "rfc/" + r.value[|command|] == topic
      ensures r.Ok? && !StartsWith(topic, "rfc/") ==> r.value[|command|] == topic
    {
      var cmd := command;
      if |cmd| == 0 {
        return Err(IndexError);
      }
      if !StartsWith(cmd[0], "/") {
        cmd := cmd[0 := GetAbspath(cmd[0], root)];
      }
      var page := topic;
      if StartsWith(page, "rfc/") {
        page := page[4..];
        assert "rfc/" + page == topic;
      }
      r := Ok(cmd + [page]);
    }

    /** `CommandAdapter._get_page` as the RFC adapter inherits it: the RFC adapter always
        runs its script, with the RFC number (or the topic as given) as last argument. */
    method GetPage(topic: string, root: string) returns (r: Result<Page>)
      ensures r.Err? <==> command == []
      ensures r.Err? ==> r.error == IndexError
      ensures r.Ok? ==> r.value.Output? && |r.value.argv| == |command| + 1
      ensures r.Ok? ==> r.value.argv[0] == GetAbspath(command[0], root)
      ensures r.Ok? ==> r.value.argv[1..|command|] == command[1..]
      ensures r.Ok? && StartsWith(topic, "rfc/") ==> "rfc/" + r.value.argv[|command|] == topic
      ensures r.Ok? && !StartsWith(topic, "rfc/") ==> r.value.argv[|command|] == topic
    {
      var cmd := GetCommand(topic, root);
      match cmd
      case Err(e) => r := Err(e);
      case Ok(argv) => r := Ok(CommandPage(argv));
    }
  }

  // ---------------------------------------------------------------------------
  // Translation._get_page

  /** The target language from the request options: `request_options.get('lang', 'en')`. */
  function Lang(opts: map<string, string>): (r: string)
    ensures "lang" in opts ==> r == opts["lang"]
    ensures "lang" !in opts ==> r == "en"
  {
    if "lang" in opts then opts["lang"] else "en"
  }

  /** `Translation._get_page("from[-to]/text", options)`: the translation program's
      argument vector, with `from` and `to` languages and the text with "+" read as a
      space. The topic is split before the options are looked at. */
  function TranslationPage(topic: string, options: Option<map<string, string>>): (r: Result<seq<string>>)
    ensures r == Err(ValueError) <==> '/' !in topic
    ensures r == Err(AttributeError) <==> '/' in topic && options.None?
    ensures r.Ok? ==> |r.value| == 4 && r.value[0] == TranslationProgram
    ensures r.Ok? ==> '/' !in r.value[1] && '-' !in r.value[1] && '+' !in r.value[3]
  {
    match SplitOnce(topic, '/')
    case None => Err(ValueError)
    case Some((from, text)) =>
      match options
      case None => Err(AttributeError)
      case Some(opts) =>
        var words := ReplaceChar(text, '+', ' ');
        assert '+' !in words by {
          forall k | 0 <= k < |words| ensures words[k] != '+' { }
        }
        match SplitOnce(from, '-')
        case None => Ok([TranslationProgram, from, Lang(opts), words])
        case Some((source, target)) =>
          assert '/' !in source by {
            forall k | 0 <= k < |source| ensures source[k] != '/'
            {
              assert source[k] == (source + ['-'] + target)[k];
            }
          }
          Ok([TranslationProgram, source, target, words])
  }

  /** A topic "from-to/text" names both languages; the options' language is ignored. */
  lemma TranslationPair(from: string, to: string, text: string, opts: map<string, string>)
    requires '/' !in from && '-' !in from && '/' !in to
    ensures TranslationPage(from + "-" + to + "/" + text, Some(opts))
      == Ok([TranslationProgram, from, to, ReplaceChar(text, '+', ' ')])
  {
    assert '/' !in from + "-" + to;
    SplitOnceAt(from + "-" + to, text, '/');
    SplitOnceAt(from, to, '-');
  }

  /** A topic "from/text" takes the target language from the options, English by default. */
  lemma TranslationDefaultTarget(from: string, text: string, opts: map<string, string>)
    requires '/' !in from && '-' !in from
    ensures TranslationPage(from + "/" + text, Some(opts))
      == Ok([TranslationProgram, from, Lang(opts), ReplaceChar(text, '+', ' ')])
    ensures "lang" !in opts ==> Lang(opts) == "en"
  {
    SplitOnceAt(from, text, '/');
  }
}
