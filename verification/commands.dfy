/**
 * The follow-up commands the `dlt service` command prints once a service is
 * deleted (cmd/dlt/service/cmd.go): one line that deletes the cluster's
 * operator roles and one that deletes its OIDC provider, the cluster being
 * reduced to its ID.
 */
module DeleteService {
  const OperatorRolesCommand: string := "\trosa delete operator-roles -c "
  const OidcProviderCommand: string := "\trosa delete oidc-provider -c "

  /** Go's `strings.Join`: the lines with sep between each two of them. */
  function Join(lines: seq<string>, sep: string): string
    decreases |lines|
  {
    if |lines| == 0 then []
    else if |lines| == 1 then lines[0]
    else lines[0] + sep + Join(lines[1..], sep)
  }

  /** Go's `strings.Split` on a one-character separator: the pieces between the separators, always at least one. */
  function Split(s: string, sep: char): (pieces: seq<string>)
    ensures |pieces| >= 1
    decreases |s|
  {
    if s == [] then [[]]
    else if s[0] == sep then [[]] + Split(s[1..], sep)
    else
      var rest := Split(s[1..], sep);
      [[s[0]] + rest[0]] + rest[1..]
  }

  /** The two cleanup commands for the cluster with this ID, one per line. */
  function BuildCommands(id: string): string {
    Join([OperatorRolesCommand + id, OidcProviderCommand + id], "\n")
  }

  // ---------------------------------------------------------------------
  // Join and Split undo each other

  /** Text without the separator is a single piece. */
  lemma {:induction false} SplitWithout(a: string, sep: char)
    requires sep !in a
    ensures Split(a, sep) == [a]
    decreases |a|
  {
    if a != [] {
      SplitWithout(a[1..], sep);
      assert [a[0]] + a[1..] == a;
    }
  }

  /** A first piece without the separator, then the separator: the piece comes off the front. */
  lemma {:induction false} SplitAfterPiece(a: string, sep: char, b: string)
    requires sep !in a
    ensures Split(a + [sep] + b, sep) == [a] + Split(b, sep)
    decreases |a|
  {
    if a == [] {
      assert a + [sep] + b == [sep] + b;
      assert ([sep] + b)[1..] == b;
    } else {
      assert (a + [sep] + b)[0] == a[0];
      assert (a + [sep] + b)[1..] == a[1..] + [sep] + b;
      SplitAfterPiece(a[1..], sep, b);
      assert [a[0]] + a[1..] == a;
    }
  }

  /** Lines that hold no separator come back from their join one by one. */
  lemma {:induction false} SplitJoin(lines: seq<string>, sep: char)
    requires |lines| >= 1
    requires forall i :: 0 <= i < |lines| ==> sep !in lines[i]
    ensures Split(Join(lines, [sep]), sep) == lines
    decreases |lines|
  {
    if |lines| == 1 {
      SplitWithout(lines[0], sep);
    } else {
      SplitJoin(lines[1..], sep);
      SplitAfterPiece(lines[0], sep, Join(lines[1..], [sep]));
      assert [lines[0]] + lines[1..] == lines;
    }
  }

  /** Joining the pieces of a text with the separator gives the text back. */
  lemma {:induction false} JoinSplit(s: string, sep: char)
    ensures Join(Split(s, sep), [sep]) == s
    decreases |s|
  {
    if s != [] {
      var rest := Split(s[1..], sep);
      JoinSplit(s[1..], sep);
      if s[0] == sep {
        assert ([[]] + rest)[1..] == rest;
        assert [sep] + s[1..] == s;
      } else {
        var pieces := [[s[0]] + rest[0]] + rest[1..];
        if |rest| == 1 {
          assert Join(rest, [sep]) == rest[0];
        } else {
          assert pieces[1..] == rest[1..];
          assert Join(rest, [sep]) == rest[0] + [sep] + Join(rest[1..], [sep]);
        }
        assert [s[0]] + s[1..] == s;
      }
    }
  }

  // ---------------------------------------------------------------------
  // The two commands

  /** Two lines joined by a single newline, with no newline after the last. */
  lemma JoinTwo(a: string, b: string)
    ensures Join([a, b], "\n") == a + "\n" + b
  {
    assert [a, b][1..] == [b];
  }

  /**
   * With an ID that holds no newline, the output is exactly two lines: the
   * operator-roles command first, then the oidc-provider command, each
   * ending in the same ID.
   */
  lemma CommandsAreTwoLines(id: string)
    requires '\n' !in id
    ensures Split(BuildCommands(id), '\n') == [OperatorRolesCommand + id, OidcProviderCommand + id]
  {
    var lines := [OperatorRolesCommand + id, OidcProviderCommand + id];
    assert '\n' !in OperatorRolesCommand && '\n' !in OidcProviderCommand;
    SplitJoin(lines, '\n');
  }

  /**
   * Whatever the ID, the output is the operator-roles command, one newline
   * and the oidc-provider command: nothing before, between or after them.
   */
  lemma CommandsLayout(id: string)
    ensures var r := BuildCommands(id);
      && r[..|OperatorRolesCommand| + |id|] == OperatorRolesCommand + id
      && r[|OperatorRolesCommand| + |id|] == '\n'
      && r[|OperatorRolesCommand| + |id| + 1..] == OidcProviderCommand + id
  {
    JoinTwo(OperatorRolesCommand + id, OidcProviderCommand + id);
  }

  /** The output's length: both fixed command words, the newline, and the ID twice. */
  lemma CommandsLength(id: string)
    ensures |BuildCommands(id)| == |OperatorRolesCommand| + |OidcProviderCommand| + 1 + 2 * |id|
  {
    JoinTwo(OperatorRolesCommand + id, OidcProviderCommand + id);
  }

  /** The output holds one newline of its own plus two for each newline of the ID. */
  lemma CommandsNewlines(id: string)
    ensures multiset(BuildCommands(id))['\n'] == 1 + 2 * multiset(id)['\n']
  {
    JoinTwo(OperatorRolesCommand + id, OidcProviderCommand + id);
    assert '\n' !in OperatorRolesCommand && '\n' !in OidcProviderCommand;
    NewlinesOfTwoLines(OperatorRolesCommand, OidcProviderCommand, id);
  }

  lemma NewlinesOfTwoLines(a: string, b: string, id: string)
    requires '\n' !in a && '\n' !in b
    ensures multiset(a + id + "\n" + (b + id))['\n'] == 1 + 2 * multiset(id)['\n']
  {
    assert multiset(a + id + "\n" + (b + id)) == multiset(a) + multiset(id) + multiset("\n") + multiset(b) + multiset(id);
  }

  /** The output ends with the ID (or with the blank before it when the ID is empty), never with a newline of its own. */
  lemma CommandsEnd(id: string)
    ensures var r := BuildCommands(id);
      r[|r| - |id| - 1..] == [' '] + id
  {
    CommandsLayout(id);
    var r := BuildCommands(id);
    var p := |OperatorRolesCommand| + |id| + 1;
    assert r[p..] == OidcProviderCommand + id;
    assert (OidcProviderCommand + id)[|OidcProviderCommand| - 1..] == [' '] + id;
    assert r[|r| - |id| - 1..] == r[p..][|OidcProviderCommand| - 1..];
  }
}
