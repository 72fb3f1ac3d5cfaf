/** app/Console/Commands/GenerateVapidKeys.php: writing the generated key
    pair into the `.env` text. updateEnvValue upserts one `KEY=value` line:
    with the multi-line pattern `^KEY=.*$` every line that starts with
    `KEY=` is rewritten whole, and when no line does, the assignment is
    appended after a newline. */
module EnvFile {
  import opened Wrappers
  import opened Text

  const PublicKeyName := "VAPID_PUBLIC_KEY"
  const PrivateKeyName := "VAPID_PRIVATE_KEY"

  predicate IsKeyChar(c: char) {
    ('A' <= c <= 'Z') || ('0' <= c <= '9') || c == '_'
  }

  /** A variable name that the pattern matches literally, as both callers'
      names do. */
  predicate PlainKey(key: string) {
    |key| > 0 && forall i :: 0 <= i < |key| ==> IsKeyChar(key[i])
  }

  /** A value that the replacement copies literally and that stays on one
      line: no newline and none of preg_replace's `$` and `\` references,
      which holds of base64url key material. */
  predicate PlainValue(value: string) {
    '\n' !in value && '$' !in value && '\\' !in value
  }

  function Assignment(key: string, value: string): string {
    key + "=" + value
  }

  /** The line matches `^KEY=.*$`. */
  predicate Assigns(line: string, key: string) {
    StartsWith(line, key + "=")
  }

  predicate HasAssignment(lines: seq<string>, key: string) {
    exists i :: 0 <= i < |lines| && Assigns(lines[i], key)
  }

  /** preg_replace over the lines: each matching line becomes `KEY=value`. */
  function ReplaceAssignments(lines: seq<string>, key: string, value: string): (r: seq<string>)
    ensures |r| == |lines|
    ensures forall i :: 0 <= i < |lines| ==>
              r[i] == if Assigns(lines[i], key) then Assignment(key, value) else lines[i]
  {
    if |lines| == 0 then []
    else [if Assigns(lines[0], key) then Assignment(key, value) else lines[0]]
         + ReplaceAssignments(lines[1..], key, value)
  }

  /** updateEnvValue($envContent, $key, $value). */
  function UpdateEnvValue(content: string, key: string, value: string): string
    requires PlainKey(key) && PlainValue(value)
  {
    var lines := Split(content, '\n');
    if HasAssignment(lines, key) then Join(ReplaceAssignments(lines, key, value), '\n')
    else content + "\n" + Assignment(key, value)
  }

  lemma AssignmentOneLine(key: string, value: string)
    requires PlainKey(key) && PlainValue(value)
    ensures '\n' !in Assignment(key, value)
    ensures Assigns(Assignment(key, value), key)
  {
    assert Assignment(key, value)[..|key + "="|] == key + "=";
  }

  /** The lines of the result: with a matching line, the matching lines are
      rewritten in place and the count stays; without one, the assignment
      becomes a new last line (after an empty one if the text ended in a
      newline). */
  lemma UpdateEnvValueLines(content: string, key: string, value: string)
    requires PlainKey(key) && PlainValue(value)
    ensures var lines := Split(content, '\n');
      var out := Split(UpdateEnvValue(content, key, value), '\n');
      && (HasAssignment(lines, key) ==> out == ReplaceAssignments(lines, key, value))
      && (!HasAssignment(lines, key) ==> out == lines + [Assignment(key, value)])
  {
    var lines := Split(content, '\n');
    AssignmentOneLine(key, value);
    SplitPiecesFree(content, '\n');
    if HasAssignment(lines, key) {
      var r := ReplaceAssignments(lines, key, value);
      assert forall i :: 0 <= i < |r| ==> '\n' !in r[i];
      SplitJoin(r, '\n');
    } else {
      assert content + "\n" + Assignment(key, value) == content + ['\n'] + Assignment(key, value);
      SplitAppend(content, '\n', Assignment(key, value));
      SplitSingle(Assignment(key, value), '\n');
    }
  }

  /** Every line of `out` that assigns the name assigns the new value. */
  predicate OnlyNewValue(out: seq<string>, key: string, value: string) {
    forall j :: 0 <= j < |out| && Assigns(out[j], key) ==> out[j] == Assignment(key, value)
  }

  lemma ReplacedLines(lines: seq<string>, key: string, value: string)
    ensures OnlyNewValue(ReplaceAssignments(lines, key, value), key, value)
  {
  }

  lemma AppendedLine(lines: seq<string>, key: string, value: string)
    requires !HasAssignment(lines, key)
    ensures OnlyNewValue(lines + [Assignment(key, value)], key, value)
  {
  }

  /** Afterwards the variable is assigned, every assignment of it carries the
      new value, and the lines assigning anything else are kept. */
  lemma UpdateEnvValueEffect(content: string, key: string, value: string)
    requires PlainKey(key) && PlainValue(value)
    ensures var lines := Split(content, '\n');
      var out := Split(UpdateEnvValue(content, key, value), '\n');
      && Assignment(key, value) in out
      && OnlyNewValue(out, key, value)
      && |lines| <= |out|
      && (forall i :: 0 <= i < |lines| && !Assigns(lines[i], key) ==> out[i] == lines[i])
  {
    var lines := Split(content, '\n');
    UpdateEnvValueLines(content, key, value);
    if HasAssignment(lines, key) {
      var i :| 0 <= i < |lines| && Assigns(lines[i], key);
      var out := ReplaceAssignments(lines, key, value);
      assert out[i] == Assignment(key, value);
      ReplacedLines(lines, key, value);
    } else {
      var out := lines + [Assignment(key, value)];
      assert out[|lines|] == Assignment(key, value);
      AppendedLine(lines, key, value);
    }
  }

  /** Writing the same value again changes nothing. */
  lemma UpdateEnvValueIdempotent(content: string, key: string, value: string)
    requires PlainKey(key) && PlainValue(value)
    ensures UpdateEnvValue(UpdateEnvValue(content, key, value), key, value) == UpdateEnvValue(content, key, value)
  {
    var once := UpdateEnvValue(content, key, value);
    var out := Split(once, '\n');
    UpdateEnvValueEffect(content, key, value);
    var i :| 0 <= i < |out| && out[i] == Assignment(key, value);
    AssignmentOneLine(key, value);
    assert HasAssignment(out, key);
    var again := ReplaceAssignments(out, key, value);
    assert again == out;
    JoinSplit(once, '\n');
  }

  lemma AssignsParts(line: string, key: string)
    ensures Assigns(line, key) <==> |key| < |line| && line[..|key|] == key && line[|key|] == '='
  {
    if |key| < |line| {
      assert line[..|key| + 1] == line[..|key|] + [line[|key|]];
    }
  }

  /** A line that assigns one name never assigns a different plain name. */
  lemma DistinctNames(line: string, key1: string, key2: string)
    requires PlainKey(key1) && PlainKey(key2) && key1 != key2
    requires Assigns(line, key1)
    ensures !Assigns(line, key2)
  {
    AssignsParts(line, key1);
    AssignsParts(line, key2);
    if |key1| < |key2| {
      assert IsKeyChar(key2[|key1|]);
    } else if |key2| < |key1| {
      assert line[|key2|] == key1[|key2|];
      assert IsKeyChar(key1[|key2|]);
    }
  }

  /** The .env text after handle() without `--show`: the public key, then the
      private key, upserted into the existing file; a missing file is the
      error exit. */
  function WriteKeys(env: Option<string>, publicKey: string, privateKey: string): Option<string>
    requires PlainValue(publicKey) && PlainValue(privateKey)
  {
    if env.None? then None
    else
      assert PlainKey(PublicKeyName) && PlainKey(PrivateKeyName);
      Some(UpdateEnvValue(UpdateEnvValue(env.value, PublicKeyName, publicKey), PrivateKeyName, privateKey))
  }

  lemma OnlyKeptByReplace(lines: seq<string>, key: string, value: string, other: string, v: string)
    requires OnlyNewValue(lines, key, value) && !Assigns(Assignment(other, v), key)
    ensures OnlyNewValue(ReplaceAssignments(lines, other, v), key, value)
  {
  }

  lemma OnlyKeptByAppend(lines: seq<string>, key: string, value: string, last: string)
    requires OnlyNewValue(lines, key, value) && !Assigns(last, key)
    ensures OnlyNewValue(lines + [last], key, value)
  {
  }

  /** Upserting another name keeps every line that does not assign it, and
      writes no assignment of the first name. */
  lemma OtherNameKept(content: string, key: string, value: string, other: string, v: string)
    requires PlainKey(key) && PlainKey(other) && key != other && PlainValue(value) && PlainValue(v)
    requires OnlyNewValue(Split(content, '\n'), key, value)
    ensures OnlyNewValue(Split(UpdateEnvValue(content, other, v), '\n'), key, value)
    ensures Assignment(key, value) in Split(content, '\n') ==>
              Assignment(key, value) in Split(UpdateEnvValue(content, other, v), '\n')
  {
    var lines := Split(content, '\n');
    UpdateEnvValueLines(content, other, v);
    AssignmentOneLine(other, v);
    DistinctNames(Assignment(other, v), other, key);
    if HasAssignment(lines, other) {
      OnlyKeptByReplace(lines, key, value, other, v);
    } else {
      OnlyKeptByAppend(lines, key, value, Assignment(other, v));
    }
    if Assignment(key, value) in lines {
      var i :| 0 <= i < |lines| && lines[i] == Assignment(key, value);
      AssignmentOneLine(key, value);
      DistinctNames(lines[i], key, other);
      UpdateEnvValueEffect(content, other, v);
    }
  }

  /** Both keys end up assigned, each to its new value only. */
  lemma WriteKeysAssignsBoth(content: string, publicKey: string, privateKey: string)
    requires PlainValue(publicKey) && PlainValue(privateKey)
    ensures WriteKeys(None, publicKey, privateKey) == None
    ensures var out := Split(WriteKeys(Some(content), publicKey, privateKey).value, '\n');
      && Assignment(PublicKeyName, publicKey) in out
      && Assignment(PrivateKeyName, privateKey) in out
      && OnlyNewValue(out, PublicKeyName, publicKey)
      && OnlyNewValue(out, PrivateKeyName, privateKey)
  {
    assert PlainKey(PublicKeyName) && PlainKey(PrivateKeyName);
    assert PublicKeyName != PrivateKeyName by {
      assert PublicKeyName[7] != PrivateKeyName[7];
    }
    var first := UpdateEnvValue(content, PublicKeyName, publicKey);
    UpdateEnvValueEffect(content, PublicKeyName, publicKey);
    UpdateEnvValueEffect(first, PrivateKeyName, privateKey);
    OtherNameKept(first, PublicKeyName, publicKey, PrivateKeyName, privateKey);
  }
}
