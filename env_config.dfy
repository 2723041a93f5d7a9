/** Loading of key=value lines from the dotenv file into the process
    environment (src/meisencam/config.py, `_load_env_file`). The file is its
    sequence of lines, absent when it is not a regular file; the environment
    is a map from names to values. */
module EnvConfig {
  import opened Common

  /** Python's str.isspace for one character: the ASCII separators and the
      Unicode space, line and paragraph separators. */
  predicate IsSpace(c: char) {
    c == ' ' || c == '\t' || c == '\n' || c == '\r'
    || c == '\U{0B}' || c == '\U{0C}'
    || ('\U{1C}' <= c <= '\U{1F}')
    || c == '\U{85}' || c == '\U{A0}' || c == '\U{1680}'
    || ('\U{2000}' <= c <= '\U{200A}')
    || c == '\U{2028}' || c == '\U{2029}' || c == '\U{202F}' || c == '\U{205F}'
    || c == '\U{3000}'
  }

  /** Neither end of `s` is whitespace. */
  predicate IsStripped(s: string) {
    |s| == 0 || (!IsSpace(s[0]) && !IsSpace(s[|s| - 1]))
  }

  /** Every character of `w` is whitespace. */
  predicate AllSpace(w: string) {
    forall i :: 0 <= i < |w| ==> IsSpace(w[i])
  }

  function StripLeft(s: string): (r: string)
    ensures |r| <= |s| && r == s[|s| - |r|..]
    ensures |r| > 0 ==> !IsSpace(r[0])
    ensures |s| > 0 && !IsSpace(s[0]) ==> r == s
    ensures |s| > 0 && !IsSpace(s[|s| - 1]) ==> |r| > 0
  {
    if |s| > 0 && IsSpace(s[0]) then StripLeft(s[1..]) else s
  }

  function StripRight(s: string): (r: string)
    ensures |r| <= |s| && r == s[..|r|]
    ensures |r| > 0 ==> !IsSpace(r[|r| - 1])
    ensures |s| > 0 && !IsSpace(s[|s| - 1]) ==> r == s
    ensures |s| > 0 && !IsSpace(s[0]) ==> |r| > 0
  {
    if |s| > 0 && IsSpace(s[|s| - 1]) then StripRight(s[..|s| - 1]) else s
  }

  /** Python's str.strip(): `s` without the whitespace at either end. */
  function Strip(s: string): (r: string)
    ensures IsStripped(r)
    ensures IsStripped(s) ==> r == s
    ensures |s| > 0 && !IsSpace(s[0]) ==> |r| > 0 && r[0] == s[0]
    ensures |s| > 0 && !IsSpace(s[|s| - 1]) ==> |r| > 0 && r[|r| - 1] == s[|s| - 1]
  {
    StripRight(StripLeft(s))
  }

  /** Strip keeps a contiguous slice of `s` and removes only whitespace; it
      yields the empty string exactly when `s` is all whitespace. */
  lemma {:induction false} StripIsSlice(s: string)
    ensures var r := Strip(s);
      exists lo {:trigger s[lo..]} :: 0 <= lo <= |s| - |r| && r == s[lo..][..|r|]
        && (forall i :: 0 <= i < lo ==> IsSpace(s[i]))
        && (forall i :: lo + |r| <= i < |s| ==> IsSpace(s[i]))
    ensures |Strip(s)| == 0 <==> forall i :: 0 <= i < |s| ==> IsSpace(s[i])
  {
    StripLeftRemovesSpace(s);
    var l := StripLeft(s);
    StripRightRemovesSpace(l);
    var lo := |s| - |l|;
    assert l == s[lo..];
    assert forall i :: lo + |Strip(s)| <= i < |s| ==> s[i] == l[i - lo];
  }

  lemma {:induction false} StripLeftRemovesSpace(s: string)
    ensures forall i :: 0 <= i < |s| - |StripLeft(s)| ==> IsSpace(s[i])
  {
    if |s| > 0 && IsSpace(s[0]) {
      StripLeftRemovesSpace(s[1..]);
      assert forall i :: 1 <= i < |s| ==> s[i] == s[1..][i - 1];
    }
  }

  lemma {:induction false} StripRightRemovesSpace(s: string)
    ensures forall i :: |StripRight(s)| <= i < |s| ==> IsSpace(s[i])
  {
    if |s| > 0 && IsSpace(s[|s| - 1]) {
      StripRightRemovesSpace(s[..|s| - 1]);
    }
  }

  /** The entry one line of the file contributes, if any: the line is
      stripped, blank lines and `#` comments are skipped, the rest is split at
      the first `=`, and both parts must be non-empty before they are stripped. */
  function ParseLine(line: string): (e: Option<(string, string)>)
    ensures e.Some? ==>
      |e.value.0| > 0 && |e.value.1| > 0
      && IsStripped(e.value.0) && IsStripped(e.value.1)
      && '=' !in e.value.0
  {
    var s := Strip(line);
    if |s| == 0 || s[0] == '#' then None
    else
      var p := Partition(s, '=');
      if |p.head| > 0 && |p.tail| > 0 then
        assert s == p.head + ['='] + p.tail;
        assert p.head[0] == s[0] && p.tail[|p.tail| - 1] == s[|s| - 1];
        Some((Strip(p.head), Strip(p.tail)))
      else None
  }

  /** A character absent from a line is absent from the stripped line. */
  lemma StripKeepsAbsent(line: string, c: char)
    requires c !in line
    ensures c !in Strip(line)
  {
    var s := Strip(line);
    StripIsSlice(line);
    var lo :| 0 <= lo <= |line| - |s| && s == line[lo..][..|s|];
    forall j | 0 <= j < |s| ensures s[j] != c {
      assert s[j] == line[lo + j];
    }
  }

  /** Blank lines, comments, lines without `=` and lines whose part before or
      after the first `=` is empty (such as "=v" or "k=") contribute nothing. */
  lemma ParseLineSkips(line: string)
    requires |Strip(line)| == 0 || Strip(line)[0] == '#' || '=' !in line
      || |Partition(Strip(line), '=').head| == 0 || |Partition(Strip(line), '=').tail| == 0
    ensures ParseLine(line) == None
  {
    var s := Strip(line);
    if '=' !in line && |s| > 0 && s[0] != '#' {
      StripKeepsAbsent(line, '=');
      assert !Partition(s, '=').found;
    }
  }

  /** Leading whitespace is removed up to the first non-whitespace character. */
  lemma {:induction false} StripLeftSpaces(w: string, s: string)
    requires AllSpace(w)
    requires |s| > 0 && !IsSpace(s[0])
    ensures StripLeft(w + s) == s
    decreases |w|
  {
    if |w| > 0 {
      assert (w + s)[0] == w[0];
      assert (w + s)[1..] == w[1..] + s;
      StripLeftSpaces(w[1..], s);
    } else {
      assert w + s == s;
    }
  }

  /** Trailing whitespace is removed back to the last non-whitespace character. */
  lemma {:induction false} StripRightSpaces(s: string, w: string)
    requires AllSpace(w)
    requires |s| > 0 && !IsSpace(s[|s| - 1])
    ensures StripRight(s + w) == s
    decreases |w|
  {
    if |w| > 0 {
      var k := |w| - 1;
      assert (s + w)[|s + w| - 1] == w[k];
      assert (s + w)[..|s + w| - 1] == s + w[..k];
      StripRightSpaces(s, w[..k]);
    } else {
      assert s + w == s;
    }
  }

  /** Stripping a padded word gives back the word. */
  lemma StripPadded(w1: string, s: string, w2: string)
    requires AllSpace(w1) && AllSpace(w2)
    requires |s| > 0 && IsStripped(s)
    ensures Strip(w1 + s + w2) == s
  {
    assert w1 + s + w2 == w1 + (s + w2);
    assert (s + w2)[0] == s[0];
    StripLeftSpaces(w1, s + w2);
    StripRightSpaces(s, w2);
  }

  /** Whitespace holds no `=`. */
  lemma SpaceHasNoEquals(w: string)
    requires AllSpace(w)
    ensures '=' !in w
  {
  }

  /** A line whose stripped text is `head=tail`, with a non-empty head free of
      `=` that does not open a comment and a non-empty tail, yields the
      stripped head and tail. */
  lemma ParseLineSplit(line: string, head: string, tail: string)
    requires Strip(line) == head + "=" + tail
    requires |head| > 0 && '=' !in head && head[0] != '#' && |tail| > 0
    ensures ParseLine(line) == Some((Strip(head), Strip(tail)))
  {
    PartitionUnique(head, '=', tail);
  }

  /** A line as it is read from the file, with whitespace around the key,
      around the `=` and at the end (the newline included), yields the bare
      key and value. */
  lemma ParseLinePadded(w1: string, key: string, w2: string, w3: string, value: string, w4: string)
    requires AllSpace(w1) && AllSpace(w2) && AllSpace(w3) && AllSpace(w4)
    requires |key| > 0 && |value| > 0 && IsStripped(key) && IsStripped(value)
    requires '=' !in key && key[0] != '#'
    ensures ParseLine(w1 + key + w2 + "=" + w3 + value + w4) == Some((key, value))
  {
    var head, tail := key + w2, w3 + value;
    var core := head + "=" + tail;
    assert w1 + key + w2 + "=" + w3 + value + w4 == w1 + core + w4;
    assert core[0] == key[0] && core[|core| - 1] == value[|value| - 1];
    StripPadded(w1, core, w4);
    SpaceHasNoEquals(w2);
    StripPadded([], key, w2);
    assert [] + key + w2 == head;
    StripPadded(w3, value, []);
    assert w3 + value + [] == tail;
    ParseLineSplit(w1 + core + w4, head, tail);
  }

  /** A well-formed line `key=value` yields exactly that entry, even when the
      value itself holds further `=` characters. */
  lemma ParseLineRoundTrip(key: string, value: string)
    requires |key| > 0 && |value| > 0 && IsStripped(key) && IsStripped(value)
    requires '=' !in key && key[0] != '#'
    ensures ParseLine(key + "=" + value) == Some((key, value))
  {
    ParseLinePadded([], key, [], [], value, []);
    assert [] + key + [] + "=" + [] + value + [] == key + "=" + value;
  }

  /** What the file says, line by line: the entry each line contributes. */
  function Entries(lines: seq<string>): (es: seq<Option<(string, string)>>)
    ensures |es| == |lines|
    ensures forall i :: 0 <= i < |lines| ==> es[i] == ParseLine(lines[i])
  {
    seq(|lines|, i requires 0 <= i < |lines| => ParseLine(lines[i]))
  }

  /** Python's dict.setdefault for one entry, if there is one. */
  function SetDefaultEntry(env: map<string, string>, e: Option<(string, string)>): map<string, string> {
    if e.Some? && e.value.0 !in env then env[e.value.0 := e.value.1] else env
  }

  /** The environment after applying the entries in file order. */
  function LoadEntries(env: map<string, string>, es: seq<Option<(string, string)>>): map<string, string>
    decreases |es|
  {
    if |es| == 0 then env else LoadEntries(SetDefaultEntry(env, es[0]), es[1..])
  }

  /** The environment after loading the lines of a dotenv file. */
  function LoadEnv(env: map<string, string>, lines: seq<string>): map<string, string> {
    LoadEntries(env, Entries(lines))
  }

  predicate SetsKey(e: Option<(string, string)>, key: string) {
    e.Some? && e.value.0 == key
  }

  /** Reference reading of the file: the value of the first entry for `key`. */
  function FirstValue(es: seq<Option<(string, string)>>, key: string): Option<string>
    decreases |es|
  {
    if |es| == 0 then None
    else if SetsKey(es[0], key) then Some(es[0].value.1)
    else FirstValue(es[1..], key)
  }

  /** A value found for `key` is that of an entry for `key` with no earlier
      entry for `key`; nothing is found exactly when no entry is for `key`. */
  lemma {:induction false} FirstValueIsFirst(es: seq<Option<(string, string)>>, key: string)
    ensures FirstValue(es, key).Some? ==>
      exists i :: 0 <= i < |es| && es[i] == Some((key, FirstValue(es, key).value))
        && forall j :: 0 <= j < i ==> !SetsKey(es[j], key)
    ensures FirstValue(es, key).None? <==> forall i :: 0 <= i < |es| ==> !SetsKey(es[i], key)
    decreases |es|
  {
    if |es| > 0 {
      FirstValueIsFirst(es[1..], key);
      assert forall i :: 1 <= i < |es| ==> es[i] == es[1..][i - 1];
      if !SetsKey(es[0], key) && FirstValue(es, key).Some? {
        var i :| 0 <= i < |es| - 1
          && es[1..][i] == Some((key, FirstValue(es, key).value))
          && forall j :: 0 <= j < i ==> !SetsKey(es[1..][j], key);
        assert es[i + 1] == Some((key, FirstValue(es, key).value));
      }
    }
  }

  function Lookup(env: map<string, string>, key: string): Option<string> {
    if key in env then Some(env[key]) else None
  }

  /** After loading, a name keeps the value it already had; otherwise it has
      the value of its first entry in the file, and is absent when no entry
      sets it. Hence nothing is removed or overwritten, and only names from
      the file are added. */
  lemma {:induction false} LoadEntriesLookup(env: map<string, string>, es: seq<Option<(string, string)>>, key: string)
    ensures Lookup(LoadEntries(env, es), key)
         == if key in env then Some(env[key]) else FirstValue(es, key)
    decreases |es|
  {
    if |es| > 0 {
      LoadEntriesLookup(SetDefaultEntry(env, es[0]), es[1..], key);
    }
  }

  /** Every name the file adds is stripped, non-empty and free of `=`, and so is its value. */
  lemma LoadedEntriesWellFormed(env: map<string, string>, lines: seq<string>, key: string)
    requires key !in env
    ensures key in LoadEnv(env, lines) ==>
      |key| > 0 && IsStripped(key) && '=' !in key
      && |LoadEnv(env, lines)[key]| > 0 && IsStripped(LoadEnv(env, lines)[key])
  {
    if key in LoadEnv(env, lines) {
      var es := Entries(lines);
      LoadEntriesLookup(env, es, key);
      FirstValueIsFirst(es, key);
      var i :| 0 <= i < |es| && es[i] == Some((key, FirstValue(es, key).value))
        && forall j :: 0 <= j < i ==> !SetsKey(es[j], key);
      assert ParseLine(lines[i]) == es[i];
    }
  }

  /** The process environment as seen by the configuration module. */
  class Environment {
    var vars: map<string, string>

    constructor (vars: map<string, string>)
      ensures this.vars == vars
    {
      this.vars := vars;
    }

    method SetDefault(key: string, value: string)
      modifies this
      ensures vars == if key in old(vars) then old(vars) else old(vars)[key := value]
    {
      if key !in vars {
        vars := vars[key := value];
      }
    }

    /** Read the dotenv file line by line; a missing file changes nothing. */
    method LoadEnvFile(file: Option<seq<string>>)
      modifies this
      ensures file.None? ==> vars == old(vars)
      ensures file.Some? ==> vars == LoadEnv(old(vars), file.value)
    {
      if file.None? {
        return;
      }
      var lines := file.value;
      ghost var es := Entries(lines);
      var i := 0;
      while i < |lines|
        invariant 0 <= i <= |lines|
        invariant LoadEntries(vars, es[i..]) == LoadEnv(old(vars), lines)
      {
        assert es[i..][1..] == es[i + 1..];
        ghost var before := vars;
        var s := Strip(lines[i]);
        if |s| > 0 && s[0] != '#' {
          var p := Partition(s, '=');
          if |p.head| > 0 && |p.tail| > 0 {
            assert es[i] == Some((Strip(p.head), Strip(p.tail)));
            SetDefault(Strip(p.head), Strip(p.tail));
          } else {
            assert es[i] == None;
          }
        } else {
          assert es[i] == None;
        }
        assert vars == SetDefaultEntry(before, es[i]);
        i := i + 1;
      }
    }
  }
}
