/**
 * `_read_env_yaml`, written identically in changelog.py and
 * logs/log_change.py: a line-oriented `key: value` reader for env.yaml.
 */
module EnvFile {
  import opened Basics
  import opened Text

  /** A stripped line the reader ignores: blank, a comment, or without ':'. */
  predicate Skipped(line: string) {
    line == [] || line[0] == '#' || ':' !in line
  }

  /**
   * What one line contributes: nothing for a blank line, a comment or a
   * line without ':'; otherwise the stripped text before the first ':' and
   * the stripped text after it (which may itself contain ':').
   */
  function ParseEnvLine(raw: string): (r: Option<(string, string)>)
    ensures r.None? <==> Skipped(Strip(raw))
    ensures r.Some? ==> SplitAtFirstColon(Strip(raw), r.value)
  {
    ParseStripped(Strip(raw))
  }

  /** `kv` is `line` split at its first ':', both halves stripped; later colons stay in the value. */
  predicate SplitAtFirstColon(line: string, kv: (string, string)) {
    exists k :: 0 <= k < |line| && line[k] == ':' && ':' !in line[..k]
      && kv == (Strip(line[..k]), Strip(line[k + 1..]))
  }

  /** What an already stripped line contributes. */
  function ParseStripped(line: string): (r: Option<(string, string)>)
    ensures r.None? <==> Skipped(line)
    ensures r.Some? ==> SplitAtFirstColon(line, r.value)
  {
    if line == [] || StartsWith(line, "#") then None
    else match IndexOf(line, ':')
      case None => None
      case Some(k) => Some((Strip(line[..k]), Strip(line[k + 1..])))
  }

  /**
   * A line `key: value` sets the stripped key to the stripped value, when
   * the key holds no ':' and does not strip to a blank or a comment; the
   * value may hold further colons.
   */
  lemma KeyValueLine(key: string, value: string)
    requires ':' !in key && Strip(key) != [] && Strip(key)[0] != '#'
    ensures ParseEnvLine(key + ":" + value) == Some((Strip(key), Strip(value)))
  {
    var pk, kq := KeyFrame(key);
    if Strip(value) == [] {
      BlankValueLine(key, value, pk, kq);
    } else {
      TextValueLine(key, value, pk, kq);
    }
  }

  /** A key is its leading white space followed by a colon-free part that strips like the key. */
  lemma KeyFrame(key: string) returns (pk: string, kq: string)
    requires ':' !in key && Strip(key) != []
    ensures key == pk + kq && AllSpace(pk) && ':' !in kq
    ensures kq != [] && !IsSpace(kq[0]) && kq[0] == Strip(key)[0] && Strip(kq) == Strip(key)
  {
    var qk;
    pk, qk := StripSplit(key);
    var mk := Strip(key);
    kq := mk + qk;
    AppendAssoc(pk, mk, qk);
    NotInSuffix(pk, kq, ':');
    FirstOfAppend(mk, qk);
    StripHead(mk, qk);
  }

  /** KeyValueLine when the value is blank. */
  lemma BlankValueLine(key: string, value: string, pk: string, kq: string)
    requires key == pk + kq && AllSpace(pk) && ':' !in kq
    requires Strip(key) != [] && Strip(key)[0] != '#'
    requires kq != [] && !IsSpace(kq[0]) && kq[0] == Strip(key)[0] && Strip(kq) == Strip(key)
    requires Strip(value) == []
    ensures ParseEnvLine(key + ":" + value) == Some((Strip(key), Strip(value)))
  {
    var m := kq + ":";
    StripEmptyIff(value);
    Regroup3(pk, kq, ":", value);
    FirstOfAppend(kq, ":");
    LastOfAppend(kq, ":");
    StripFrame(pk, m, value);
    AppendEmpty(m);
    StripUnchanged([]);
    ColonAfterKey(m, kq, [], Strip(key), []);
  }

  /** KeyValueLine when the value holds text. */
  lemma TextValueLine(key: string, value: string, pk: string, kq: string)
    requires key == pk + kq && AllSpace(pk) && ':' !in kq
    requires Strip(key) != [] && Strip(key)[0] != '#'
    requires kq != [] && !IsSpace(kq[0]) && kq[0] == Strip(key)[0] && Strip(kq) == Strip(key)
    requires Strip(value) != []
    ensures ParseEnvLine(key + ":" + value) == Some((Strip(key), Strip(value)))
  {
    var mv := Strip(value);
    var pv, qv := StripSplit(value);
    Regroup(pk, kq, ":", pv, mv, qv);
    var m := kq + ":" + pv + mv;
    FirstOfAppend(kq, ":");
    FirstOfAppend(kq + ":", pv);
    FirstOfAppend(kq + ":" + pv, mv);
    LastOfAppend(kq + ":" + pv, mv);
    StripFrame(pk, m, qv);
    StripTail(pv, mv);
    AppendAssoc(kq + ":", pv, mv);
    ColonAfterKey(m, kq, pv + mv, Strip(key), mv);
  }

  /** A stripped line made of a colon-free key, ':' and a value parses to the stripped halves. */
  lemma ColonAfterKey(line: string, kq: string, v: string, k: string, val: string)
    requires line == kq + ":" + v && ':' !in kq
    requires Strip(kq) == k && k != [] && k[0] != '#' && kq[0] == k[0]
    requires Strip(v) == val
    ensures ParseStripped(line) == Some((k, val))
  {
    var n := |kq|;
    assert line[n] == ':' && line[..n] == kq && line[n + 1..] == v;
    assert line[0] != '#';
    assert !Skipped(line);
    var kv := ParseStripped(line).value;
    var j :| 0 <= j < |line| && line[j] == ':' && ':' !in line[..j] && kv == (Strip(line[..j]), Strip(line[j + 1..]));
    FirstIndexUnique(line, ':', j, n);
  }

  /** The (key, value) pair each line contributes, line by line. */
  function Assignments(lines: seq<string>): (ps: seq<Option<(string, string)>>)
    ensures |ps| == |lines|
    ensures forall i :: 0 <= i < |lines| ==> ps[i] == ParseEnvLine(lines[i])
  {
    seq(|lines|, i requires 0 <= i < |lines| => ParseEnvLine(lines[i]))
  }

  /** The map built from the pairs in order, a later pair overwriting an earlier one with the same key. */
  function Build(ps: seq<Option<(string, string)>>): map<string, string>
    decreases |ps|
  {
    if ps == [] then map[]
    else
      var before := Build(ps[..|ps| - 1]);
      match ps[|ps| - 1]
      case None => before
      case Some(kv) => before[kv.0 := kv.1]
  }

  /** The map `_read_env_yaml` returns for the lines of an existing file. */
  function EnvOf(lines: seq<string>): map<string, string> {
    Build(Assignments(lines))
  }

  /** Pair `i` sets `key`. */
  predicate Sets(ps: seq<Option<(string, string)>>, i: int, key: string) {
    0 <= i < |ps| && ps[i].Some? && ps[i].value.0 == key
  }

  /** The last pair is applied on top of the map built from the ones before it. */
  lemma BuildLast(ps: seq<Option<(string, string)>>)
    requires ps != []
    ensures var before := Build(ps[..|ps| - 1]);
      Build(ps) == if ps[|ps| - 1].None? then before else before[ps[|ps| - 1].value.0 := ps[|ps| - 1].value.1]
  {
  }

  /** A key is in the map exactly when some line sets it. */
  lemma {:induction false} BuildKeys(ps: seq<Option<(string, string)>>, key: string)
    ensures key in Build(ps) <==> exists i :: Sets(ps, i, key)
    decreases |ps|
  {
    if ps != [] {
      var init := ps[..|ps| - 1];
      BuildKeys(init, key);
      BuildLast(ps);
      if key in Build(init) {
        var i :| Sets(init, i, key);
        assert Sets(ps, i, key);
      }
      if Sets(ps, |ps| - 1, key) {
      } else {
        forall i | Sets(ps, i, key) ensures Sets(init, i, key) {
        }
      }
    }
  }

  /** The value of a key is the value of the last line that sets it. */
  lemma {:induction false} BuildLastWins(ps: seq<Option<(string, string)>>, i: int, key: string)
    requires Sets(ps, i, key)
    requires forall j :: i < j < |ps| ==> !Sets(ps, j, key)
    ensures key in Build(ps) && Build(ps)[key] == ps[i].value.1
    decreases |ps|
  {
    var init := ps[..|ps| - 1];
    if i < |ps| - 1 {
      assert !Sets(ps, |ps| - 1, key);
      forall j | i < j < |init| ensures !Sets(init, j, key) {
        assert !Sets(ps, j, key);
      }
      BuildLastWins(init, i, key);
    }
  }

  /** Building up to pair `i` inclusive applies pair `i` to the map built before it. */
  lemma BuildStep(ps: seq<Option<(string, string)>>, i: nat)
    requires i < |ps|
    ensures Build(ps[..i + 1]) == if ps[i].None? then Build(ps[..i]) else Build(ps[..i])[ps[i].value.0 := ps[i].value.1]
  {
    assert ps[..i + 1][..i] == ps[..i];
    BuildLast(ps[..i + 1]);
  }

  /** _read_env_yaml: an absent file reads as the empty map; otherwise every line is offered to the map in order. */
  method ReadEnvYaml(present: bool, content: string) returns (data: map<string, string>)
    ensures !present ==> data == map[]
    ensures present ==> data == EnvOf(SplitLines(Universal(content)))
  {
    data := map[];
    if !present {
      return;
    }
    var lines := SplitLines(Universal(content));
    ghost var ps := Assignments(lines);
    var i := 0;
    while i < |lines|
      invariant 0 <= i <= |lines|
      invariant data == Build(ps[..i])
    {
      var pair := ParseEnvLine(lines[i]);
      if pair.Some? {
        data := data[pair.value.0 := pair.value.1];
      }
      BuildStep(ps, i);
      i := i + 1;
    }
    assert ps[..i] == ps;
  }
}
