/**
 * The native half of environment enumeration: the process environment, a
 * list of C strings, is flattened into a caller-supplied character buffer,
 * each string followed by ';' in place of its terminating NUL, stopping when
 * the buffer is full.
 */
module PalEnvironment {
  import opened Outcomes


  /** The characters of a C string, which never include its terminating NUL. */
  predicate IsCString(s: seq<char>) {
    forall k :: 0 <= k < |s| ==> s[k] != '\0'
  }

  /** The environment as environ lists it, in order. */
  predicate IsEnviron(env: seq<seq<char>>) {
    forall v :: v in env ==> IsCString(v)
  }

  /** The text the serialiser writes when the buffer is large enough: every
      variable in order, each followed by ';'. */
  function Serialized(env: seq<seq<char>>): (s: seq<char>)
    ensures |s| >= |env|
    ensures env != [] ==> s[|s| - 1] == ';'
  {
    if env == [] then [] else env[0] + [';'] + Serialized(env[1..])
  }

  /** Serialising a concatenation serialises each part. */
  lemma {:induction false} SerializedAppend(a: seq<seq<char>>, b: seq<seq<char>>)
    ensures Serialized(a + b) == Serialized(a) + Serialized(b)
  {
    if a == [] {
      assert a + b == b;
    } else {
      assert (a + b)[1..] == a[1..] + b;
      SerializedAppend(a[1..], b);
    }
  }

  /** No NUL reaches the serialisation: each terminator becomes ';'. */
  lemma {:induction false} SerializedHasNoNul(env: seq<seq<char>>)
    requires IsEnviron(env)
    ensures IsCString(Serialized(env))
  {
    if env != [] {
      assert env[0] in env;
      assert forall v :: v in env[1..] ==> v in env;
      SerializedHasNoNul(env[1..]);
      var s := Serialized(env);
      assert s == env[0] + [';'] + Serialized(env[1..]);
      forall k | 0 <= k < |s| ensures s[k] != '\0' {
        if k < |env[0]| {
          assert s[k] == env[0][k];
        } else if k > |env[0]| {
          assert s[k] == Serialized(env[1..])[k - |env[0]| - 1];
        }
      }
    }
  }

  /** The serialisation of one variable: its text, then ';'. */
  lemma SerializedSingle(v: seq<char>)
    ensures Serialized([v]) == v + [';']
  {
    assert [v][1..] == [];
  }

  /** Where variable k's text and its ';' sit in the serialisation: right after
      the serialisation of the variables before it. */
  lemma SerializedAt(env: seq<seq<char>>, k: nat)
    requires k < |env|
    ensures Serialized(env[..k + 1]) == Serialized(env[..k]) + env[k] + [';']
    ensures |Serialized(env[..k])| + |env[k]| + 1 <= |Serialized(env)|
    ensures forall j :: |Serialized(env[..k])| <= j <= |Serialized(env[..k])| + |env[k]| ==>
              Serialized(env)[j] == (env[k] + [';'])[j - |Serialized(env[..k])|]
  {
    var before, here, after := env[..k], env[k], env[k + 1..];
    assert env[..k + 1] == before + [here];
    SerializedAppend(before, [here]);
    SerializedSingle(here);
    assert env == env[..k + 1] + after;
    SerializedAppend(env[..k + 1], after);
    var s := Serialized(env);
    assert s == Serialized(before) + (here + [';']) + Serialized(after);
  }

  /** CoreLibNative_GetEnumerateEnvironmentVariables: writes into buffer as
      much of the serialisation as fits in bufferSize characters and returns
      how many it wrote. A result equal to bufferSize does not tell an exact
      fit from a truncation. Nothing at or past the result is written. */
  method GetEnumerateEnvironmentVariables(environ: seq<seq<char>>, buffer: array<char>, bufferSize: int)
    returns (charsWritten: int)
    requires IsEnviron(environ)
    requires bufferSize <= buffer.Length
    modifies buffer
    ensures 0 <= charsWritten <= |Serialized(environ)|
    ensures bufferSize >= 0 ==> charsWritten <= bufferSize
    ensures |Serialized(environ)| < bufferSize ==> charsWritten == |Serialized(environ)|
    ensures 0 <= bufferSize <= |Serialized(environ)| ==> charsWritten == bufferSize
    ensures bufferSize < 0 ==> charsWritten == 0
    ensures forall k :: 0 <= k < charsWritten ==> buffer[k] == Serialized(environ)[k]
    ensures forall k :: charsWritten <= k < buffer.Length ==> buffer[k] == old(buffer[k])
  {
    ghost var text := Serialized(environ);
    var variableCount := 0;
    charsWritten := 0;

    while variableCount < |environ|
      invariant 0 <= variableCount <= |environ|
      invariant charsWritten == |Serialized(environ[..variableCount])|
      invariant charsWritten <= |text| && charsWritten <= Max(bufferSize, 0)
      invariant forall k :: 0 <= k < charsWritten ==> buffer[k] == text[k]
      invariant forall k :: charsWritten <= k < buffer.Length ==> buffer[k] == old(buffer[k])
    {
      var env := environ[variableCount];
      assert env in environ;
      SerializedAt(environ, variableCount);
      ghost var start := charsWritten;
      var full;
      charsWritten, full := CopyVariable(env, buffer, bufferSize, charsWritten, text);
      if full {
        return;
      }
      variableCount := variableCount + 1;
    }
    assert environ[..variableCount] == environ;
  }

  /** The inner loop of the serialiser: copies one variable's characters from
      position start on, then ';' for its NUL, checking before each character
      that the buffer is not full. full reports that the check fired, which
      ends the whole serialisation with the count reached. text is the whole
      serialisation, in which this variable's text starts at start. */
  method CopyVariable(env: seq<char>, buffer: array<char>, bufferSize: int, start: int, ghost text: seq<char>)
    returns (charsWritten: int, full: bool)
    requires IsCString(env)
    requires bufferSize <= buffer.Length
    requires 0 <= start <= Max(bufferSize, 0)
    requires start + |env| + 1 <= |text|
    requires forall j :: start <= j <= start + |env| ==> text[j] == (env + [';'])[j - start]
    modifies buffer
    ensures full <==> start + |env| + 1 > bufferSize
    ensures charsWritten == if full then Max(start, bufferSize) else start + |env| + 1
    ensures forall k :: start <= k < charsWritten ==> buffer[k] == (env + [';'])[k - start]
    ensures forall k :: start <= k < charsWritten ==> buffer[k] == text[k]
    ensures forall k :: 0 <= k < buffer.Length && !(start <= k < charsWritten) ==> buffer[k] == old(buffer[k])
  {
    charsWritten := start;
    var offset := 0;
    while true
      invariant 0 <= offset <= |env|
      invariant charsWritten == start + offset
      invariant charsWritten <= Max(bufferSize, 0)
      invariant forall k :: start <= k < charsWritten ==> buffer[k] == (env + [';'])[k - start]
      invariant forall k :: start <= k < charsWritten ==> buffer[k] == text[k]
      invariant forall k :: 0 <= k < buffer.Length && !(start <= k < charsWritten) ==> buffer[k] == old(buffer[k])
      decreases |env| - offset
    {
      if charsWritten >= bufferSize {
        return charsWritten, true;
      }
      var c := if offset < |env| then env[offset] else '\0';
      if c == '\0' {
        buffer[charsWritten] := ';';
        charsWritten := charsWritten + 1;
        break;
      } else {
        buffer[charsWritten] := c;
        charsWritten := charsWritten + 1;
      }
      offset := offset + 1;
    }
    full := false;
  }
}
