/**
 * Reading the `.env` configuration: the text is cut into lines, blank lines
 * are skipped, and every other line `key=value` sets one entry of the
 * configuration map, later lines overwriting earlier ones.
 */
module Env {
  import opened Strings

  /** The configuration before the file is read: every key present, empty. */
  const DEFAULTS: map<string, string> :=
    map["URL" := "", "USER" := "", "PASS" := "", "ROOM" := "", "OPENAI_KEY" := ""]

  /** `arr = line.split("=")`, key `arr[0]`, value `arr.slice(1).join("=")`:
      the key is the text before the first `=` and the value everything after
      it; a line without `=` is all key, with an empty value. */
  function ParseLine(line: string): (string, string)
  {
    var parts := Split(line, '=');
    if |parts| == 1 then (parts[0], "") else (parts[0], Join(parts[1..], "="))
  }

  /** The key never contains `=`, and key, `=` and value spell the line
      again; a line without `=` is all key, with an empty value. */
  lemma ParseLineSpec(line: string)
    ensures var kv := ParseLine(line);
            '=' !in line ==> kv == (line, "")
    ensures var kv := ParseLine(line);
            '=' in line ==> '=' !in kv.0 && kv.0 + "=" + kv.1 == line
  {
    var parts := Split(line, '=');
    SplitJoin(line, '=');
    if |parts| == 1 {
      assert Join(parts, "=") == parts[0];
    } else {
      JoinCons(parts[0], parts[1..], "=");
      assert [parts[0]] + parts[1..] == parts;
    }
  }

  /** A line that sets a key: one whose trim is not empty. */
  predicate IsSetting(line: string) {
    Trim(line) != ""
  }

  /** The configuration after the lines have been applied in order. */
  function ApplyLines(env: map<string, string>, lines: seq<string>): map<string, string>
    decreases |lines|
  {
    if lines == [] then env
    else
      var before := ApplyLines(env, lines[..|lines| - 1]);
      var line := lines[|lines| - 1];
      if IsSetting(line) then before[ParseLine(line).0 := ParseLine(line).1] else before
  }

  /** Applying one more line. */
  lemma ApplyLinesSnoc(env: map<string, string>, lines: seq<string>, line: string)
    ensures ApplyLines(env, lines + [line])
            == if IsSetting(line) then ApplyLines(env, lines)[ParseLine(line).0 := ParseLine(line).1]
               else ApplyLines(env, lines)
  {
    assert (lines + [line])[..|lines|] == lines;
  }

  /** Whether `line` is a setting line for the key `k`. */
  predicate SetsKey(line: string, k: string) {
    IsSetting(line) && ParseLine(line).0 == k
  }

  /** Index of the last element of `s` that satisfies `p`, or -1 when there is none. */
  function LastWhere<T>(s: seq<T>, p: T -> bool): (i: int)
    ensures -1 <= i < |s|
    ensures i >= 0 ==> p(s[i])
    ensures forall j :: i < j < |s| ==> !p(s[j])
    decreases |s|
  {
    if s == [] then -1
    else if p(s[|s| - 1]) then |s| - 1
    else LastWhere(s[..|s| - 1], p)
  }

  /** Index of the last setting line whose key is `k`, or -1 when there is none. */
  function LastSetting(lines: seq<string>, k: string): (i: int)
  {
    LastWhere(lines, line => SetsKey(line, k))
  }

  /** The last setting line for a key decides its value; a key no line sets
      keeps its previous value, or stays absent. */
  lemma {:induction false} ApplyLinesLookup(env: map<string, string>, lines: seq<string>, k: string)
    ensures var r := ApplyLines(env, lines);
            var i := LastSetting(lines, k);
            if i >= 0 then k in r && r[k] == ParseLine(lines[i]).1
            else (k in r <==> k in env) && (k in env ==> r[k] == env[k])
    decreases |lines|
  {
    if lines != [] {
      ApplyLinesLookup(env, lines[..|lines| - 1], k);
    }
  }

  /** Reading never removes a key: a key is present afterwards exactly when it
      was present before or some setting line names it. */
  lemma ApplyLinesKeys(env: map<string, string>, lines: seq<string>)
    ensures forall k :: k in ApplyLines(env, lines)
                        <==> k in env || exists j :: 0 <= j < |lines| && SetsKey(lines[j], k)
  {
    forall k ensures k in ApplyLines(env, lines)
                     <==> k in env || exists j :: 0 <= j < |lines| && SetsKey(lines[j], k)
    {
      ApplyLinesLookup(env, lines, k);
    }
  }

  /** Reading a file over the defaults leaves every default key present,
      whatever the file holds. */
  lemma ReadKeepsDefaultKeys(text: string)
    ensures var r := ApplyLines(DEFAULTS, SplitLines(text));
            "URL" in r && "USER" in r && "PASS" in r && "ROOM" in r && "OPENAI_KEY" in r
  {
    ApplyLinesKeys(DEFAULTS, SplitLines(text));
  }

  /** `readEnvFile`: every non-blank line of `text` writes its key into the
      configuration. */
  method ReadEnvFile(env: map<string, string>, text: string) returns (result: map<string, string>)
    ensures result == ApplyLines(env, SplitLines(text))
  {
    var lines := SplitLines(text);
    result := env;
    for i := 0 to |lines|
      invariant result == ApplyLines(env, lines[..i])
    {
      var line := lines[i];
      ApplyLinesSnoc(env, lines[..i], line);
      assert lines[..i] + [line] == lines[..i + 1];
      if Trim(line) != "" {
        var kv := ParseLine(line);
        result := result[kv.0 := kv.1];
      }
    }
    assert lines[..|lines|] == lines;
  }
}
