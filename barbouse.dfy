/** The request-line parser of barbouse: `Command.__init__` turns the first
    line of a request file, `METHOD#URL[#FILTER]`, into the HTTP method, the
    URL with `{NAME}` placeholders filled in from the environment, and an
    optional jq filter. */
module Barbouse {
  import opened Wrappers
  import opened Text

  /** One environment variable. */
  datatype EnvVar = EnvVar(name: string, value: string)

  /** The process environment, in the order `os.environ` iterates it. */
  type Env = seq<EnvVar>

  /** The text `{NAME}` that stands for variable `name` in a URL. */
  function Placeholder(name: string): string
  {
    "{" + name + "}"
  }

  /** The URL after replacing, for each variable in turn, every `{NAME}` by
      its value. The replacements are sequential: each one works on the text
      the previous ones left, so a value may bring in a placeholder that a
      later variable fills. */
  function Substitute(url: string, env: Env): (r: string)
    ensures env == [] ==> r == url
    ensures '{' !in url ==> r == url
    decreases |env|
  {
    if env == [] then url
    else
      var last := env[|env| - 1];
      ReplaceAll(Substitute(url, env[..|env| - 1]), Placeholder(last.name), last.value)
  }

  /** The loop over `os.environ` that rewrites the URL in place. */
  method Template(raw: string, env: Env) returns (url: string)
    ensures url == Substitute(raw, env)
  {
    url := raw;
    for i := 0 to |env|
      invariant url == Substitute(raw, env[..i])
    {
      assert env[..i + 1][..i] == env[..i];
      url := ReplaceAll(url, Placeholder(env[i].name), env[i].value);
    }
    assert env[..|env|] == env;
  }

  /** What `Command.__init__` leaves in the object's fields: the method
      (`method` in the source), the templated URL and the filter (`filtr`). */
  datatype Request = Request(verb: string, url: string, filter: Option<string>)

  /** `command[1]` raised IndexError: the line holds no `#`. */
  datatype ParseError = MissingUrl

  /** The effect of `Command(line)` with the given environment. */
  function ParseLine(line: string, env: Env): (r: Result<Request, ParseError>)
    ensures r.Failure? <==> '#' !in line
    ensures r.Success? ==> '#' !in r.value.verb
  {
    var command := Split(line, "#");
    if |command| < 2 then Failure(MissingUrl)
    else
      Success(Request(command[0], Substitute(command[1], env),
                      if |command| > 2 then Some(command[2]) else None))
  }

  /** Applying the variables one after the other, a trailing character other
      than `}` stays at the end: every placeholder ends with `}`. */
  lemma {:induction false} SubstituteKeepsLast(url: string, c: char, env: Env)
    requires c != '}'
    ensures Substitute(url + [c], env) == Substitute(url, env) + [c]
    decreases |env|
  {
    if env != [] {
      var last := env[|env| - 1];
      SubstituteKeepsLast(url, c, env[..|env| - 1]);
      ReplaceAllAppend(Substitute(url, env[..|env| - 1]), c, Placeholder(last.name), last.value);
    }
  }

  /** A line with exactly one `#`: the method is the text before it, the URL
      the templated text after it, and there is no filter. */
  lemma ParseTwoFields(verb: string, raw: string, env: Env)
    requires '#' !in verb && '#' !in raw
    ensures ParseLine(verb + "#" + raw, env) == Success(Request(verb, Substitute(raw, env), None))
  {
    SplitAtFirst(verb, '#', "#" + raw);
    assert ("#" + raw)[1..] == raw;
    assert verb + "#" + raw == verb + ("#" + raw);
    SplitWithout(raw, '#');
  }

  /** A line with two or more `#`: the method is the first field, the URL the
      templated second one, the filter the third one untouched, and whatever
      follows the third field (a `#` and anything) is dropped. A URL written
      with a `#fragment` is therefore cut short, and its fragment taken for
      the filter. */
  lemma ParseThreeFields(verb: string, raw: string, filter: string, rest: string, env: Env)
    requires '#' !in verb && '#' !in raw && '#' !in filter
    requires rest == [] || rest[0] == '#'
    ensures ParseLine(verb + "#" + raw + "#" + filter + rest, env)
         == Success(Request(verb, Substitute(raw, env), Some(filter)))
  {
    var line := verb + "#" + raw + "#" + filter + rest;
    assert line == verb + ("#" + (raw + ("#" + (filter + rest))));
    SplitThreeFields(verb, raw, filter, rest, '#');
  }

  /** The method is exactly the text before the first `#`: no trimming and no
      templating. */
  lemma VerbIsTextBeforeFirstHash(line: string, env: Env)
    requires '#' in line
    ensures var verb := ParseLine(line, env).value.verb;
            '#' !in verb && |verb| < |line| && line == verb + "#" + line[|verb| + 1..]
  {
    var command := Split(line, "#");
    SplitJoinRoundTrip(line, "#");
    assert line == command[0] + "#" + Join(command[1..], "#");
  }

  /** The line terminator `readline` keeps stays at the end of the URL when
      there is no filter: no placeholder ends with it. */
  lemma UrlKeepsTerminator(verb: string, raw: string, env: Env)
    requires '#' !in verb && '#' !in raw
    ensures ParseLine(verb + "#" + raw + "\n", env).value.url == Substitute(raw, env) + "\n"
  {
    ParseTwoFields(verb, raw + "\n", env);
    assert verb + "#" + raw + "\n" == verb + "#" + (raw + "\n");
    SubstituteKeepsLast(raw, '\n', env);
  }

  /** On a line with exactly three `#`-separated fields, the line terminator
      ends the filter. */
  lemma FilterKeepsTerminator(verb: string, raw: string, filter: string, env: Env)
    requires '#' !in verb && '#' !in raw && '#' !in filter
    ensures ParseLine(verb + "#" + raw + "#" + filter + "\n", env).value.filter == Some(filter + "\n")
  {
    ParseThreeFields(verb, raw, filter + "\n", "", env);
    assert verb + "#" + raw + "#" + filter + "\n" == verb + "#" + raw + "#" + (filter + "\n") + "";
  }

  /** Replacement is sequential: a value may bring in a placeholder that a
      later variable fills, so the order of the environment matters. */
  lemma SubstitutionOrderMatters()
    ensures Substitute("{A}", [EnvVar("A", "{B}"), EnvVar("B", "x")]) == "x"
    ensures Substitute("{A}", [EnvVar("B", "x"), EnvVar("A", "{B}")]) == "{B}"
  {
    var a, b := EnvVar("A", "{B}"), EnvVar("B", "x");
    assert Placeholder("A") == "{A}" && Placeholder("B") == "{B}";
    ReplaceWhole("{A}", "{B}");
    ReplaceWhole("{B}", "x");
    // A first: `{A}` becomes `{B}`, which B then fills.
    assert [a, b][..1] == [a];
    assert Substitute("{A}", [a]) == "{B}";
    // B first: `{A}` holds no `{B}`, then A brings one in.
    assert [b, a][..1] == [b];
    assert !StartsWith("{A}", "{B}");
    assert "{A}"[1..] == "A}";
    assert ReplaceAll("{A}", "{B}", "x") == "{" + ReplaceAll("A}", "{B}", "x");
    assert Substitute("{A}", [b]) == "{A}";
  }

  /** Substituting is not idempotent even when no value holds a `{`:
      removing an inner placeholder can join the text around it into a new
      one. */
  lemma SubstituteNotIdempotent()
    ensures Substitute("{{A}A}", [EnvVar("A", "")]) == "{A}"
    ensures Substitute("{A}", [EnvVar("A", "")]) == ""
  {
    assert Placeholder("A") == "{A}";
    ReplaceWhole("{A}", "");
    assert !StartsWith("{{A}A}", "{A}") by {
      assert "{{A}A}"[..3][1] == '{' != "{A}"[1];
    }
    assert "{{A}A}"[1..] == "{A}A}";
    assert StartsWith("{A}A}", "{A}");
    assert "{A}A}"[3..] == "A}";
    assert ReplaceAll("{A}A}", "{A}", "") == "" + ReplaceAll("A}", "{A}", "");
    assert ReplaceAll("{{A}A}", "{A}", "") == "{" + ReplaceAll("{A}A}", "{A}", "");
  }

  /** A request file's first line, as an object whose fields the
      constructor assigns. */
  class Command {
    var verb: string
    var url: string
    var filter: Option<string>

    /** The fields, as a value. */
    function Fields(): Request
      reads this
    {
      Request(verb, url, filter)
    }

    /** `Command.__init__` on a line it does not raise on. */
    constructor (line: string, env: Env)
      requires '#' in line
      ensures ParseLine(line, env) == Success(Fields())
    {
      var command := Split(line, "#");
      verb := command[0];
      var templated := Template(command[1], env);
      url := templated;
      filter := None;
      if |command| > 2 {
        filter := Some(command[2]);
      }
    }
  }

  /** `Command(line)`: either a new object or the IndexError the constructor
      raises on a line without `#`. */
  method NewCommand(line: string, env: Env) returns (r: Result<Command, ParseError>)
    ensures r.Failure? <==> '#' !in line
    ensures r.Failure? ==> ParseLine(line, env) == Failure(r.error)
    ensures r.Success? ==> fresh(r.value) && ParseLine(line, env) == Success(r.value.Fields())
  {
    if '#' !in line {
      return Failure(MissingUrl);
    }
    var c := new Command(line, env);
    return Success(c);
  }
}
