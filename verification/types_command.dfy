/**
 * The `types` command: it makes sure there is a logged-in client (logging in
 * through the login command when there is none), then lists the distinct
 * type names the application offers, sorted.
 */
module TypesCommand {
  import opened Wrappers
  import opened LoginDecision
  import opened TextOrder

  /** The application's current client; username and password may be missing. */
  class Client {
    var username: Option<string>
    var password: Option<string>

    constructor (username: Option<string>, password: Option<string>)
      ensures this.username == username && this.password == password
    {
      this.username := username;
      this.password := password;
    }

    method SetUsername(value: string)
      modifies this
      ensures username == Some(value) && password == old(password)
    {
      username := Some(value);
    }

    method SetPassword(value: string)
      modifies this
      ensures password == Some(value) && username == old(username)
    {
      password := Some(value);
    }
  }

  /**
   * A client credential after validation: the offered value replaces it only
   * when both user and password were given and the client had no value.
   */
  function FilledIn(have: Option<string>, o: Options, offered: Option<string>): Option<string>
  {
    if Given(o.user) && Given(o.password) && !Given(have) then offered else have
  }

  /** An existing username or password is never overwritten, and a missing one is filled. */
  lemma FillInKeepsExisting(have: Option<string>, o: Options, offered: Option<string>)
    ensures Given(have) ==> FilledIn(have, o, offered) == have
    ensures !(Given(o.user) && Given(o.password)) ==> FilledIn(have, o, offered) == have
    ensures Given(o.user) && Given(o.password) && Given(offered) ==> Given(FilledIn(have, o, offered))
  {
  }

  /** The options after `--enc` decoding of user and password; `decode` stands for the decoder. */
  function Decoded(o: Options, decode: string -> string): (r: Options)
    ensures r.url == o.url && r.includelogs == o.includelogs && r.path == o.path
    ensures r.fulltypes == o.fulltypes && r.encode == o.encode
    ensures !(o.encode && Given(o.user) && Given(o.password)) ==> r == o
    ensures o.encode && Given(o.user) && Given(o.password) ==>
              r.user == Some(decode(o.user.value)) && r.password == Some(decode(o.password.value))
  {
    if o.encode && Given(o.user) && Given(o.password) then
      o.(user := Some(decode(o.user.value)), password := Some(decode(o.password.value)))
    else o
  }

  /** Python's `needle in line` on strings: `needle` occurs somewhere in `line`. */
  predicate Contains(line: string, needle: string)
  {
    if |line| < |needle| then false
    else line[..|needle|] == needle || Contains(line[1..], needle)
  }

  /** `needle` occurs in `line` starting at position `i`. */
  predicate OccursAt(line: string, needle: string, i: nat)
  {
    i + |needle| <= |line| && line[i..i + |needle|] == needle
  }

  /** An occurrence at any position is found. */
  lemma {:induction false} ContainsAt(line: string, needle: string, i: nat)
    requires OccursAt(line, needle, i)
    ensures Contains(line, needle)
  {
    if i > 0 {
      assert line[1..][i - 1..i - 1 + |needle|] == line[i..i + |needle|];
      ContainsAt(line[1..], needle, i - 1);
    }
  }

  /** And only an occurrence is found: `Contains` is exactly Python's `in`. */
  lemma {:induction false} ContainsOnlyAt(line: string, needle: string)
    requires Contains(line, needle)
    ensures exists i: nat :: OccursAt(line, needle, i)
  {
    if line[..|needle|] == needle {
      assert OccursAt(line, needle, 0);
    } else {
      ContainsOnlyAt(line[1..], needle);
      var i: nat :| OccursAt(line[1..], needle, i);
      assert line[1..][i..i + |needle|] == line[i + 1..i + 1 + |needle|];
      assert OccursAt(line, needle, i + 1);
    }
  }

  /** A rejected line such as `--url my-host --bogus` holds `-h` inside a value and counts as asking for help. */
  lemma HelpFlagInsideValue(returnTypes: bool, decode: string -> string, appTypes: bool -> seq<string>)
    ensures ReplyOf("--url my-host --bogus", ParseFailed, returnTypes, decode, appTypes) == ReturnedSuccess
  {
    assert OccursAt("--url my-host --bogus", "-h", 8);
    ContainsAt("--url my-host --bogus", "-h", 8);
  }

  /** What the option parser made of the command line. */
  datatype Parse = ParseFailed | Parsed(options: Options, args: seq<string>)

  datatype Error = InvalidCommandLineErrorOPTS | InvalidCommandLineError(message: string)

  /** What `typesfunction` hands back: the success code, the list, `None`, or an exception. */
  datatype Reply = ReturnedSuccess | ReturnedTypes(names: seq<string>) | ReturnedNone | Raised(error: Error)

  /** What `run` hands back. */
  datatype Status = Success | Failed(error: Error)

  const NoArgumentsMessage: string := "The 'types' command does not take any arguments."

  const Heading: string := "Type options:"

  /** Each name followed by a line break, one write each. */
  function Lines(names: seq<string>): seq<string>
  {
    if names == [] then [] else Lines(names[..|names| - 1]) + [names[|names| - 1], "\n"]
  }

  /** The writes of the printed listing: the heading, a line break, then the lines. */
  function Listing(names: seq<string>): seq<string>
  {
    [Heading, "\n"] + Lines(names)
  }

  /** The listing shows every name, in order, each on a line of its own, and nothing else. */
  lemma {:induction false} LinesAt(names: seq<string>)
    ensures |Lines(names)| == 2 * |names|
    ensures forall k :: 0 <= k < |names| ==> Lines(names)[2 * k] == names[k] && Lines(names)[2 * k + 1] == "\n"
  {
    if names != [] {
      var init := names[..|names| - 1];
      LinesAt(init);
      assert forall k :: 0 <= k < |init| ==> init[k] == names[k];
    }
  }

  /** The reply of `typesfunction`, given what the application offers. */
  function ReplyOf(line: string, parse: Parse, returnTypes: bool, decode: string -> string,
                   appTypes: bool -> seq<string>): Reply
  {
    match parse
    case ParseFailed =>
      if Contains(line, "-h") || Contains(line, "--help") then ReturnedSuccess else Raised(InvalidCommandLineErrorOPTS)
    case Parsed(options, args) =>
      if args != [] then Raised(InvalidCommandLineError(NoArgumentsMessage))
      else if returnTypes then ReturnedTypes(SortedDistinct(appTypes(Decoded(options, decode).fulltypes)))
      else ReturnedNone
  }

  /** `run` succeeds unless `typesfunction` raised. */
  function StatusOf(r: Reply): Status
  {
    if r.Raised? then Failed(r.error) else Success
  }

  /**
   * The `types` command over the state it touches: the client lookup, the
   * configuration, the application's types, the login calls and the output.
   */
  class TypesCommand {
    /** What the client lookup returns; `null` when it raises. */
    const current: Client?
    const config: Config
    /** The application's type names, full or simplified. */
    const appTypes: bool -> seq<string>
    /** The argument lists the login command was called with, in order. */
    var logins: seq<seq<string>>
    /** Everything written to standard output, one element per write. */
    var out: seq<string>

    constructor (current: Client?, config: Config, appTypes: bool -> seq<string>)
      ensures this.current == current && this.config == config && this.appTypes == appTypes
      ensures logins == [] && out == []
    {
      this.current := current;
      this.config := config;
      this.appTypes := appTypes;
      logins := [];
      out := [];
    }

    /**
     * What validation does with options `o`: the login calls it makes, what it
     * writes, and how it completes the current client.
     */
    twostate predicate Validated(o: Options, written: seq<string>)
      reads this, current
    {
      logins == old(logins) + Calls(Decide(current != null, o, config))
      && out == old(out) + Notice(current != null, o, config) + written
      && (current != null ==>
            current.username == FilledIn(old(current.username), o, o.user)
            && current.password == FilledIn(old(current.password), o, o.password))
    }

    /** The `extend` steps of validation for one source of url, user and password. */
    static method ExtendCredentials(inputline: seq<string>, url: Option<string>, user: Option<string>, password: Option<string>)
      returns (extended: seq<string>)
      ensures extended == inputline + CredentialArgs(Credentials(Keep(url), Keep(user), Keep(password)))
    {
      extended := inputline;
      if Given(url) {
        extended := extended + [url.value];
      }
      if Given(user) {
        extended := extended + ["-u", user.value];
      }
      if Given(password) {
        extended := extended + ["-p", password.value];
      }
    }

    method TypesValidation(o: Options)
      modifies this, current
      ensures Validated(o, [])
    {
      var client: Client? := null;
      var inputline: seq<string> := [];
      var runlogin := false;

      if current != null {
        client := current;
        if Given(o.user) && Given(o.password) {
          if !Given(client.username) {
            client.SetUsername(o.user.value);
          }
          if !Given(client.password) {
            client.SetPassword(o.password.value);
          }
        }
      } else if Given(o.user) || Given(o.password) || Given(o.url) {
        inputline := ExtendCredentials(inputline, o.url, o.user, o.password);
      } else {
        inputline := ExtendCredentials(inputline, config.url, config.username, config.password);
      }
      assert inputline == if current != null then [] else CredentialArgs(ChosenCredentials(o, config));
      ghost var credentials := inputline;

      if inputline != [] || client == null {
        runlogin := true;
        if inputline == [] {
          out := out + [LocalLoginMessage];
        }
      }
      if o.includelogs {
        inputline := inputline + ["--includelogs"];
      }
      if Given(o.path) {
        inputline := inputline + ["--path", o.path.value];
      }

      assert inputline == credentials + (if o.includelogs then ["--includelogs"] else []) + Flagged("--path", Keep(o.path));

      if runlogin {
        logins := logins + [inputline];
      }
    }

    method TypesFunction(line: string, parse: Parse, returnTypes: bool, decode: string -> string)
      returns (r: Reply)
      modifies this, current
      ensures r == ReplyOf(line, parse, returnTypes, decode, appTypes)
      ensures parse.ParseFailed? ==>
                logins == old(logins) && out == old(out)
                && (current != null ==> current.username == old(current.username)
                                        && current.password == old(current.password))
      ensures parse.Parsed? ==>
                var o := Decoded(parse.options, decode);
                Validated(o, if parse.args == [] && !returnTypes then Listing(SortedDistinct(appTypes(o.fulltypes))) else [])
    {
      if parse.ParseFailed? {
        if Contains(line, "-h") || Contains(line, "--help") {
          return ReturnedSuccess;
        } else {
          return Raised(InvalidCommandLineErrorOPTS);
        }
      }
      var options := Decoded(parse.options, decode);
      var args := parse.args;

      TypesValidation(options);

      if args == [] {
        var typeslist := SortedDistinct(appTypes(options.fulltypes));
        if !returnTypes {
          out := out + [Heading, "\n"];
          var i := 0;
          while i < |typeslist|
            invariant 0 <= i <= |typeslist|
            invariant Validated(options, [Heading, "\n"] + Lines(typeslist[..i]))
          {
            out := out + [typeslist[i], "\n"];
            i := i + 1;
            assert typeslist[..i][..i - 1] == typeslist[..i - 1];
          }
          assert typeslist[..i] == typeslist;
          r := ReturnedNone;
        } else {
          r := ReturnedTypes(typeslist);
        }
      } else {
        r := Raised(InvalidCommandLineError(NoArgumentsMessage));
      }
    }

    method Run(line: string, parse: Parse, decode: string -> string) returns (s: Status)
      modifies this, current
      ensures s == StatusOf(ReplyOf(line, parse, false, decode, appTypes))
      ensures parse.ParseFailed? ==>
                logins == old(logins) && out == old(out)
                && (current != null ==> current.username == old(current.username)
                                        && current.password == old(current.password))
      ensures parse.Parsed? ==>
                var o := Decoded(parse.options, decode);
                Validated(o, if parse.args == [] then Listing(SortedDistinct(appTypes(o.fulltypes))) else [])
    {
      var r := TypesFunction(line, parse, false, decode);
      s := StatusOf(r);
    }
  }
}
