/** Which `ip` commands may be run on a node. */
module IPCommand {
  import opened Strings
  import opened Numbers

  // ----- strings.Fields -----

  /** The length of the stretch without white space at the head of `s`. */
  function WordLength(s: string): (n: nat)
    ensures n <= |s| && (n < |s| ==> IsSpace(s[n]))
    ensures forall i :: 0 <= i < n ==> !IsSpace(s[i])
  {
    if s == "" || IsSpace(s[0]) then 0 else 1 + WordLength(s[1..])
  }

  /** `strings.Fields`. */
  function Fields(s: string): seq<string>
    decreases |s|
  {
    if s == "" then []
    else if IsSpace(s[0]) then Fields(s[1..])
    else [s[..WordLength(s)]] + Fields(s[WordLength(s)..])
  }

  predicate IsWord(w: string) {
    w != "" && forall c :: c in w ==> !IsSpace(c)
  }

  lemma {:induction false} WordLengthReads(w: string, rest: string)
    requires forall c :: c in w ==> !IsSpace(c)
    requires rest == "" || IsSpace(rest[0])
    ensures WordLength(w + rest) == |w|
  {
    if w == "" {
      assert w + rest == rest;
    } else {
      assert w[0] in w && (w + rest)[1..] == w[1..] + rest;
      WordLengthReads(w[1..], rest);
    }
  }

  /** A word and white space in front of more text is one more field. */
  lemma FieldsWord(w: string, rest: string)
    requires IsWord(w) && (rest == "" || IsSpace(rest[0]))
    ensures Fields(w + rest) == [w] + Fields(rest)
  {
    assert w[0] in w && (w + rest)[0] == w[0];
    WordLengthReads(w, rest);
    assert (w + rest)[..|w|] == w && (w + rest)[|w|..] == rest;
  }

  /** Splitting into fields inverts joining words by spaces. */
  lemma {:induction false} FieldsJoin(words: seq<string>)
    requires forall w :: w in words ==> IsWord(w)
    ensures Fields(Join(words, " ")) == words
  {
    if |words| == 1 {
      FieldsWord(words[0], "");
      assert words[0] + "" == words[0] && words == [words[0]] + [];
    } else if |words| > 1 {
      var rest := Join(words[1..], " ");
      FieldsJoin(words[1..]);
      FieldsWord(words[0], " " + rest);
      assert words[0] + (" " + rest) == words[0] + " " + rest;
      assert (" " + rest)[1..] == rest;
      assert words == [words[0]] + words[1..];
    }
  }

  /** How any text is read: white space is skipped, then a word reaches to the next white space. */
  lemma {:induction false} FieldsRead(blank: string, w: string, rest: string)
    requires forall c :: c in blank ==> IsSpace(c)
    requires IsWord(w) && (rest == "" || IsSpace(rest[0]))
    ensures Fields(blank) == [] && Fields(blank + w + rest) == [w] + Fields(rest)
    decreases |blank|
  {
    if blank == "" {
      assert blank + w + rest == w + rest;
      FieldsWord(w, rest);
    } else {
      assert blank[0] in blank;
      assert (blank + w + rest)[1..] == blank[1..] + w + rest;
      FieldsRead(blank[1..], w, rest);
    }
  }

  lemma {:induction false} FieldsTrimLeft(s: string)
    ensures Fields(TrimLeft(s)) == Fields(s)
  {
    if s != "" && IsSpace(s[0]) {
      FieldsTrimLeft(s[1..]);
    }
  }

  lemma {:induction false} FieldsBlankEnd(s: string, c: char)
    requires IsSpace(c)
    ensures Fields(s + [c]) == Fields(s)
    decreases |s|
  {
    if s == "" {
      assert ([c])[1..] == "";
    } else if IsSpace(s[0]) {
      assert (s + [c])[1..] == s[1..] + [c];
      FieldsBlankEnd(s[1..], c);
    } else {
      var n := WordLength(s);
      var w, rest := s[..n], s[n..];
      assert s == w + rest && s + [c] == w + (rest + [c]);
      assert forall x :: x in w ==> exists i :: 0 <= i < n && s[i] == x;
      assert w[0] == s[0];
      FieldsWord(w, rest);
      FieldsWord(w, rest + [c]);
      FieldsBlankEnd(rest, c);
    }
  }

  lemma {:induction false} FieldsTrimRight(s: string)
    ensures Fields(TrimRight(s)) == Fields(s)
  {
    if s != "" && IsSpace(s[|s| - 1]) {
      var front := s[..|s| - 1];
      FieldsTrimRight(front);
      assert s == front + [s[|s| - 1]];
      FieldsBlankEnd(front, s[|s| - 1]);
    }
  }

  /** Trimming first makes no difference. */
  lemma FieldsTrim(s: string)
    ensures Fields(TrimSpace(s)) == Fields(s)
  {
    FieldsTrimLeft(s);
    FieldsTrimRight(TrimLeft(s));
  }

  /** An integer is a single field. */
  lemma IntegerIsOneField(s: string)
    requires IsInteger(s)
    ensures Fields(s) == [s]
  {
    var digits := if s[0] == '-' || s[0] == '+' then s[1..] else s;
    forall c | c in s ensures !IsSpace(c) {
      if c in digits {
        assert IsDigit(c);
      } else {
        assert s == [s[0]] + s[1..];
        assert c == s[0];
      }
    }
    assert IsWord(s);
    FieldsWord(s, "");
    assert s + "" == s && [s] + [] == [s];
  }

  // ----- the allowed commands -----

  /** The commands that are a single word. */
  const WORDS: set<string> := {"address", "link", "neighbour", "netns", "route", "rule", "vrf"}

  const COMMANDS: set<string> := WORDS + {"xfrm state", "xfrm policy"}

  /** The input's fields are abbreviations of an allowed command and of its subcommand. */
  predicate Abbreviates(fields: seq<string>, command: string)
    requires |fields| >= 2
  {
    var words := Fields(command);
    if |words| == 1 then fields[0] <= command && fields[1] <= "show"
    else
      && |fields| >= |words| + 1
      && (forall i :: 0 <= i < |words| ==> fields[i] <= words[i])
      && (command == "xfrm state" || command == "xfrm policy")
      && fields[|words|] <= "list"
  }

  /** `ip l s` can set a link up or down. */
  predicate SetsLink(fields: seq<string>)
    requires |fields| >= 2
  {
    "l" <= fields[0] && fields[1] == "s"
  }

  /** What the verdict means, for any order in which the allowed commands are tried. */
  ghost predicate Allowed(fields: seq<string>) {
    |fields| >= 2 && !SetsLink(fields) && exists c :: c in COMMANDS && Abbreviates(fields, c)
  }

  /** The loop over the words of a command. */
  method AllMatch(words: seq<string>, fields: seq<string>) returns (allMatch: bool)
    requires |fields| >= |words|
    ensures allMatch <==> forall i :: 0 <= i < |words| ==> fields[i] <= words[i]
  {
    allMatch := true;
    for i := 0 to |words|
      invariant allMatch
      invariant forall j :: 0 <= j < i ==> fields[j] <= words[j]
    {
      if !(fields[i] <= words[i]) {
        return false;
      }
    }
  }

  /** The loop over the allowed commands, a map that is iterated in any order and left at the
      first match. */
  method MatchesAny(fields: seq<string>, commands: set<string>) returns (valid: bool)
    requires |fields| >= 2
    ensures valid <==> exists c :: c in commands && Abbreviates(fields, c)
  {
    valid := false;
    var todo := commands;
    while todo != {}
      invariant todo <= commands
      invariant !valid && forall c :: c in commands - todo ==> !Abbreviates(fields, c)
      decreases |todo|
    {
      var command :| command in todo;
      var words := Fields(command);
      if |words| == 1 {
        if fields[0] <= command && fields[1] <= "show" {
          valid := true;
          break;
        }
      } else if |fields| >= |words| + 1 {
        var allMatch := AllMatch(words, fields);
        if allMatch && (command == "xfrm state" || command == "xfrm policy") {
          if fields[|words|] <= "list" {
            valid := true;
            break;
          }
        }
      }
      todo := todo - {command};
    }
  }

  /** `validateIPCommand`: true when no error is returned. The verdict only depends on the fields
      of the command, which are what is later put on the command line; the test for an integer
      never decides it, and neither does the order in which the map is iterated. */
  method ValidateIPCommand(ipCommand: string) returns (valid: bool)
    ensures valid <==> Allowed(Fields(ipCommand))
  {
    if IsInteger(ipCommand) {
      IntegerIsOneField(ipCommand);
      return false;
    }
    FieldsTrim(ipCommand);
    var fields := Fields(TrimSpace(ipCommand));
    if |fields| < 2 {
      return false;
    }
    if SetsLink(fields) {
      return false;
    }
    valid := MatchesAny(fields, COMMANDS);
  }

  lemma XfrmFields()
    ensures Fields("xfrm state") == ["xfrm", "state"]
    ensures Fields("xfrm policy") == ["xfrm", "policy"]
  {
    LettersAreWord("xfrm");
    LettersAreWord("state");
    LettersAreWord("policy");
    TwoFields("xfrm", "state");
    TwoFields("xfrm", "policy");
    assert "xfrm" + " " + "state" == "xfrm state";
    assert "xfrm" + " " + "policy" == "xfrm policy";
  }

  lemma LettersAreWord(w: string)
    requires w != "" && forall c :: c in w ==> IsLetter(c)
    ensures IsWord(w)
  {
  }

  lemma TwoFields(a: string, b: string)
    requires IsWord(a) && IsWord(b)
    ensures Fields(a + " " + b) == [a, b]
  {
    FieldsJoin([a, b]);
    assert [a, b][1..] == [b];
    assert Join([a, b], " ") == a + " " + b;
  }

  lemma WordIsOneField(w: string)
    requires IsWord(w)
    ensures Fields(w) == [w]
  {
    FieldsWord(w, "");
    assert w + "" == w && [w] + [] == [w];
  }

  lemma WordFields(w: string)
    requires w in WORDS
    ensures Fields(w) == [w]
  {
    AreWords();
    WordIsOneField(w);
  }

  lemma AreWords()
    ensures forall w :: w in WORDS ==> IsWord(w)
  {
    LettersAreWord("address");
    LettersAreWord("link");
    LettersAreWord("neighbour");
    LettersAreWord("netns");
    LettersAreWord("route");
    LettersAreWord("rule");
    LettersAreWord("vrf");
  }

  /** An abbreviated word with an abbreviated `show`. */
  ghost predicate ShowsWord(fields: seq<string>)
    requires |fields| >= 2
  {
    fields[1] <= "show" && exists w :: w in WORDS && fields[0] <= w
  }

  /** Abbreviations of `xfrm`, of `state` or `policy`, and of `list`. */
  predicate ListsXfrm(fields: seq<string>) {
    && |fields| >= 3
    && fields[0] <= "xfrm" && (fields[1] <= "state" || fields[1] <= "policy") && fields[2] <= "list"
  }

  lemma XfrmAbbreviations(fields: seq<string>)
    requires |fields| >= 2
    ensures Abbreviates(fields, "xfrm state") || Abbreviates(fields, "xfrm policy") <==> ListsXfrm(fields)
  {
    XfrmFields();
    TwoWords(fields, "xfrm", "state");
    TwoWords(fields, "xfrm", "policy");
  }

  lemma TwoWords(fields: seq<string>, a: string, b: string)
    requires |fields| >= 2
    ensures (forall i :: 0 <= i < 2 ==> fields[i] <= [a, b][i]) <==> fields[0] <= a && fields[1] <= b
  {
    assert [a, b][0] == a && [a, b][1] == b;
  }

  lemma WordAbbreviations(fields: seq<string>)
    requires |fields| >= 2
    ensures (exists w :: w in WORDS && Abbreviates(fields, w)) <==> ShowsWord(fields)
  {
    forall w | w in WORDS ensures Abbreviates(fields, w) <==> fields[0] <= w && fields[1] <= "show" {
      WordFields(w);
    }
  }

  /** The accepted commands, in closed form: two fields of which the first does not begin with `l`
      while the second is `s`, since `ip l s` can set a link up or down, and either a word of the
      seven shown or xfrm states or policies listed, all abbreviated. */
  lemma AllowedExactly(fields: seq<string>)
    ensures Allowed(fields) <==>
            && |fields| >= 2
            && !("l" <= fields[0] && fields[1] == "s")
            && (|| ((fields[0] <= "address" || fields[0] <= "link" || fields[0] <= "neighbour"
                     || fields[0] <= "netns" || fields[0] <= "route" || fields[0] <= "rule" || fields[0] <= "vrf")
                    && fields[1] <= "show")
                || (|fields| >= 3 && fields[0] <= "xfrm" && (fields[1] <= "state" || fields[1] <= "policy")
                    && fields[2] <= "list"))
  {
    if |fields| >= 2 {
      AllowedInWords(fields);
      SevenWords(fields);
    }
  }

  lemma AllowedInWords(fields: seq<string>)
    requires |fields| >= 2
    ensures Allowed(fields) <==> !SetsLink(fields) && (ShowsWord(fields) || ListsXfrm(fields))
  {
    XfrmAbbreviations(fields);
    WordAbbreviations(fields);
    CommandsAre(fields);
  }

  lemma SevenWords(fields: seq<string>)
    requires |fields| >= 2
    ensures ShowsWord(fields) <==>
            && (fields[0] <= "address" || fields[0] <= "link" || fields[0] <= "neighbour"
                || fields[0] <= "netns" || fields[0] <= "route" || fields[0] <= "rule" || fields[0] <= "vrf")
            && fields[1] <= "show"
  {
    assert "address" in WORDS && "link" in WORDS && "neighbour" in WORDS && "netns" in WORDS;
    assert "route" in WORDS && "rule" in WORDS && "vrf" in WORDS;
  }

  /** A command that abbreviates one of the seven words and `show` is refused for one reason alone:
      `l`, or anything longer, followed by exactly `s`. */
  lemma OnlySettingLinksIsRefused(fields: seq<string>, word: string)
    requires |fields| >= 2
    requires word in {"address", "link", "neighbour", "netns", "route", "rule", "vrf"}
    requires fields[0] <= word && fields[1] <= "show"
    ensures Allowed(fields) <==> !("l" <= fields[0] && fields[1] == "s")
  {
    AllowedExactly(fields);
  }

  lemma CommandsAre(fields: seq<string>)
    requires |fields| >= 2
    ensures (exists c :: c in COMMANDS && Abbreviates(fields, c)) <==>
            || (exists w :: w in WORDS && Abbreviates(fields, w))
            || Abbreviates(fields, "xfrm state") || Abbreviates(fields, "xfrm policy")
  {
    var two := {"xfrm state", "xfrm policy"};
    assert COMMANDS == WORDS + two;
    assert "xfrm state" in COMMANDS && "xfrm policy" in COMMANDS;
  }
}
