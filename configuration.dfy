/**
 * The option handling that turns the parsed command line into the field list,
 * separator and modes the rest of the front end reads.
 */
module Configuration {
  import opened Wrappers
  import opened Strings
  import opened Descriptions

  const TsvFields: seq<string> := ["nameversion", "license", "licensefile"]
  const JsonFields: seq<string> := ["name", "version", "license", "licensefile", "homepage", "description", "dependencies"]
  const PrettyFields: seq<string> := ["nameversion", "license", "simplelicensefile"]
  /** What the option parser supplies when no separator is given. */
  const DefaultSeparator := " ── "

  /**
   * The parsed options the handling reads: missing-only, the highlight
   * pattern (as the predicate it tests), flat, tsv, json, the fields list,
   * the separator (the parser's default already applied) and whether colours
   * were enabled beforehand.
   */
  datatype Options = Options(
    missingOnly: bool,
    highlight: Option<string -> bool>,
    flat: bool,
    tsv: bool,
    json: bool,
    fields: Option<string>,
    separator: string,
    colour: bool)

  /** The globals once the options are handled. */
  datatype Config = Config(settings: Settings, flat: bool, colour: bool)

  /** `sep` left null, so that `sep.replace` throws. */
  datatype ConfigError = NullSeparator

  /** `opts.fields` is truthy. */
  predicate FieldsGiven(o: Options)
  {
    o.fields.Some? && o.fields.value != ""
  }

  /** The field list: `--fields` beats the json preset, which beats the tsv preset; otherwise the pretty fields. */
  function SelectedFields(o: Options): seq<string>
  {
    if FieldsGiven(o) then Split(o.fields.value, ',')
    else if o.json then JsonFields
    else if o.tsv then TsvFields
    else PrettyFields
  }

  /** The presets and the field list, reassigned in turn. */
  method SelectFields(o: Options) returns (fields: seq<string>, flat: bool, separator: string, colour: bool)
    ensures fields == SelectedFields(o)
    ensures FieldsGiven(o) ==> Join(fields, ",") == o.fields.value
    ensures flat == (o.flat || o.tsv || o.json)
    ensures separator == if o.tsv then "\t" else o.separator
    ensures colour == (o.colour && !o.tsv && !o.json)
  {
    var selected: Option<seq<string>> := None;
    flat, separator, colour := o.flat, o.separator, o.colour;
    if o.tsv {
      colour := false;
      flat := true;
      separator := "\t";
      selected := Some(TsvFields);
    }
    if o.json {
      colour := false;
      flat := true;
      selected := Some(JsonFields);
    }
    if FieldsGiven(o) {
      selected := Some(Split(o.fields.value, ','));
      JoinSplit(o.fields.value, ',');
    }
    if selected.None? {
      selected := Some(PrettyFields);
    }
    fields := selected.value;
  }

  /** The character a backslash escape stands for. */
  function Decoded(c: char): char
  {
    if c == 't' then '\t' else if c == 'n' then '\n' else '\0'
  }

  /** One left-to-right scan replacing the backslash escapes whose letter is in `keys`. */
  function UnescapeOnly(s: string, keys: set<char>): string
    decreases |s|
  {
    if |s| == 0 then ""
    else if |s| >= 2 && s[0] == '\\' && s[1] in keys then [Decoded(s[1])] + UnescapeOnly(s[2..], keys)
    else [s[0]] + UnescapeOnly(s[1..], keys)
  }

  /** Every two-character `\t`, `\n` and `\0` becomes tab, newline and NUL. */
  function Unescape(s: string): string
  {
    UnescapeOnly(s, {'t', 'n', '0'})
  }

  /** The separator's unescaping as written: three global replacements in turn. */
  function UnescapeSeparator(sep: string): string
  {
    ReplaceAll(ReplaceAll(ReplaceAll(sep, "\\t", "\t"), "\\n", "\n"), "\\0", "\0")
  }

  lemma {:induction false} UnescapeNothing(s: string)
    ensures UnescapeOnly(s, {}) == s
    decreases |s|
  {
    if |s| > 0 {
      UnescapeNothing(s[1..]);
      assert [s[0]] + s[1..] == s;
    }
  }

  /**
   * One more replacement pass equals one scan over one more escape letter:
   * the passes before it produce no backslash and no escape letter that it
   * could match.
   */
  lemma {:induction false} ReplaceEscape(s: string, keys: set<char>, k: char)
    requires keys <= {'t', 'n', '0'} && k in {'t', 'n', '0'} && k !in keys
    ensures ReplaceAll(UnescapeOnly(s, keys), ['\\', k], [Decoded(k)]) == UnescapeOnly(s, keys + {k})
    decreases |s|
  {
    var pat, rep := ['\\', k], [Decoded(k)];
    if |s| == 0 {
    } else if |s| >= 2 && s[0] == '\\' && s[1] in keys {
      var u := UnescapeOnly(s[2..], keys);
      ReplaceEscape(s[2..], keys, k);
      assert ([Decoded(s[1])] + u)[0] == Decoded(s[1]) != pat[0];
      ReplaceHeadKept(Decoded(s[1]), u, pat, rep);
    } else if |s| >= 2 && s[0] == '\\' && s[1] == k {
      var u := UnescapeOnly(s[2..], keys);
      assert s[1..][1..] == s[2..];
      assert UnescapeOnly(s[1..], keys) == [k] + u;
      assert UnescapeOnly(s, keys) == ['\\'] + ([k] + u);
      assert ['\\'] + ([k] + u) == pat + u;
      assert StartsWith(pat + u, pat) && (pat + u)[|pat|..] == u;
      ReplaceEscape(s[2..], keys, k);
    } else {
      var u := UnescapeOnly(s[1..], keys);
      assert UnescapeOnly(s, keys) == [s[0]] + u;
      if s[0] == '\\' && |s| >= 2 {
        if |s| >= 3 && s[1] == '\\' && s[2] in keys {
          assert s[1..][1] == s[2];
          assert u[0] == Decoded(s[2]);
        } else {
          assert u[0] == s[1];
        }
        assert ([s[0]] + u)[1] == u[0] != pat[1];
      } else if s[0] != '\\' {
        assert ([s[0]] + u)[0] == s[0] != pat[0];
      }
      ReplaceHeadKept(s[0], u, pat, rep);
      ReplaceEscape(s[1..], keys, k);
    }
  }

  /** The three passes of the original line are one escape-decoding scan. */
  lemma UnescapeSeparatorIsUnescape(sep: string)
    ensures UnescapeSeparator(sep) == Unescape(sep)
  {
    UnescapeNothing(sep);
    ReplaceEscape(sep, {}, 't');
    ReplaceEscape(sep, {'t'}, 'n');
    ReplaceEscape(sep, {'t', 'n'}, '0');
    assert {} + {'t'} == {'t'} && {'t'} + {'n'} == {'t', 'n'} && {'t', 'n'} + {'0'} == {'t', 'n', '0'};
  }

  /** Text without a backslash is left alone, and an escape is decoded in place. */
  lemma {:induction false} UnescapeDecodes(a: string, k: char, b: string)
    requires '\\' !in a && k in {'t', 'n', '0'}
    ensures Unescape(a) == a
    ensures Unescape(a + ['\\', k] + b) == a + [Decoded(k)] + Unescape(b)
    decreases |a|
  {
    if |a| == 0 {
      assert a + ['\\', k] + b == ['\\', k] + b;
      assert (['\\', k] + b)[2..] == b;
    } else {
      UnescapeDecodes(a[1..], k, b);
      assert (a + ['\\', k] + b)[1..] == a[1..] + ['\\', k] + b;
      assert (a + ['\\', k] + b)[0] == a[0];
      assert [a[0]] + a[1..] == a;
    }
  }

  /** Lines 125-128 as written: an empty separator leaves `sep` null and `sep.replace` throws. */
  method ResolveSeparatorAsWritten(separator: string) returns (r: Result<string, ConfigError>)
    ensures r.Failure? <==> separator == ""
    ensures r.Success? ==> r.value == Unescape(separator)
  {
    var sep: Option<string> := None;
    if separator != "" {
      sep := Some(separator);
    }
    if sep.None? {
      return Failure(NullSeparator);
    }
    UnescapeSeparatorIsUnescape(sep.value);
    r := Success(UnescapeSeparator(sep.value));
  }

  /** The separator as evidently intended: an empty separator stays empty and never fails. */
  method ResolveSeparator(separator: string) returns (sep: string)
    ensures sep == Unescape(separator)
    ensures separator == "" ==> sep == ""
  {
    UnescapeSeparatorIsUnescape(separator);
    sep := UnescapeSeparator(separator);
  }

  /** The parser's default separator has no escape in it and is used as it is. */
  lemma DefaultSeparatorKept()
    ensures Unescape(DefaultSeparator) == DefaultSeparator
  {
    UnescapeDecodes(DefaultSeparator, 't', "");
  }

  /**
   * `c` holds what the option handling sets from `o`: the selected fields, the
   * decoded separator (a tab under tsv), json, missing-only and the highlight
   * as given, flat and colour as the presets leave them.
   */
  ghost predicate Handled(o: Options, c: Config)
  {
    && c.settings.fields == SelectedFields(o)
    && c.settings.sep == Unescape(if o.tsv then "\t" else o.separator)
    && c.settings.json == o.json
    && c.settings.missingOnly == o.missingOnly
    && c.settings.highlight == o.highlight
    && c.flat == (o.flat || o.tsv || o.json)
    && c.colour == (o.colour && !o.tsv && !o.json)
  }

  /** Lines 104-128 as written: the handling fails where an empty separator leaves `sep` null. */
  method ConfigureAsWritten(o: Options) returns (r: Result<Config, ConfigError>)
    ensures r.Failure? <==> !o.tsv && o.separator == ""
    ensures r.Success? ==> Handled(o, r.value)
  {
    var fields, flat, separator, colour := SelectFields(o);
    var sep := ResolveSeparatorAsWritten(separator);
    if sep.Failure? {
      return Failure(sep.error);
    }
    r := Success(Config(Settings(fields, sep.value, o.json, o.missingOnly, o.highlight), flat, colour));
  }

  /** The option handling, with the separator resolved as intended: it never fails. */
  method Configure(o: Options) returns (c: Config)
    ensures Handled(o, c)
    ensures o.tsv ==> c.settings.sep == "\t"
    ensures !o.tsv && '\\' !in o.separator ==> c.settings.sep == o.separator
    ensures !o.tsv && o.separator == "" ==> c.settings.sep == ""
  {
    var fields, flat, separator, colour := SelectFields(o);
    var sep := ResolveSeparator(separator);
    if '\\' !in separator {
      UnescapeDecodes(separator, 't', "");
    }
    c := Config(Settings(fields, sep, o.json, o.missingOnly, o.highlight), flat, colour);
  }
}
