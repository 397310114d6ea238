/**
 * The sender directory: `load_senders` reads the senders file, one
 * `email|name|pass` record per line, into a dictionary keyed by email.
 * The file is given as its sequence of lines as read (each may still end in
 * its line break); a file that does not exist is the empty sequence.
 */
module Senders {
  import opened Wrappers
  import opened PyText

  const Delimiter: char := '|'

  /** The value stored for one sender: `{'name': name, 'pass': password}`. */
  datatype SenderRecord = SenderRecord(name: string, pass: string)

  /**
   * One line of the senders file: its stripped text split on every `|`; only
   * a split into exactly three pieces yields an (email, record) entry.
   */
  function ParseLine(line: string): (r: Option<(string, SenderRecord)>)
    ensures r.Some? <==> Occurrences(Strip(line), Delimiter) == 2
  {
    var parts := Split(Strip(line), Delimiter);
    if |parts| == 3 then Some((parts[0], SenderRecord(parts[1], parts[2]))) else None
  }

  /** The entry a line contributes, if any. */
  type Entry = Option<(string, SenderRecord)>

  /** Whether `entry` is a record for `email`. */
  predicate Names(entry: Entry, email: string) {
    entry.Some? && entry.value.0 == email
  }

  /** Whether `line` is a well-formed record for `email`. */
  predicate Declares(line: string, email: string) {
    Names(ParseLine(line), email)
  }

  /**
   * A line yields exactly the entry (email, name, pass) when its stripped text
   * is `email|name|pass` with no `|` inside any of the three fields.
   */
  lemma ParseLineExact(line: string, email: string, name: string, pass: string)
    ensures ParseLine(line) == Some((email, SenderRecord(name, pass)))
        <==> (Strip(line) == email + [Delimiter] + name + [Delimiter] + pass
              && Delimiter !in email && Delimiter !in name && Delimiter !in pass)
  {
    if ParseLine(line) == Some((email, SenderRecord(name, pass))) {
      ParsedFieldsJoin(line, email, name, pass);
    }
    if Strip(line) == email + [Delimiter] + name + [Delimiter] + pass
       && Delimiter !in email && Delimiter !in name && Delimiter !in pass {
      JoinThree(email, name, pass);
      SplitJoin([email, name, pass], Delimiter);
    }
  }

  lemma JoinThree(email: string, name: string, pass: string)
    ensures Join([email, name, pass], Delimiter) == email + [Delimiter] + name + [Delimiter] + pass
  {
    var fields := [email, name, pass];
    assert fields[1..] == [name, pass];
    assert fields[1..][1..] == [pass];
    assert Join(fields[1..], Delimiter) == name + [Delimiter] + pass;
  }

  lemma ParsedFieldsJoin(line: string, email: string, name: string, pass: string)
    requires ParseLine(line) == Some((email, SenderRecord(name, pass)))
    ensures Strip(line) == email + [Delimiter] + name + [Delimiter] + pass
    ensures Delimiter !in email && Delimiter !in name && Delimiter !in pass
  {
    var parts := Split(Strip(line), Delimiter);
    assert |parts| == 3;
    assert parts == [email, name, pass];
    JoinThree(email, name, pass);
  }

  /** The entry of every line of the file, in order. */
  function Entries(lines: seq<string>): (r: seq<Entry>)
    ensures |r| == |lines|
  {
    seq(|lines|, i requires 0 <= i < |lines| => ParseLine(lines[i]))
  }

  /** The dictionary built from a file's entries, first to last, a later entry overwriting. */
  function Fold(entries: seq<Entry>): map<string, SenderRecord>
    decreases |entries|
  {
    if entries == [] then map[]
    else Insert(Fold(entries[..|entries| - 1]), entries[|entries| - 1])
  }

  /** `senders[email] = {...}` for a well-formed line; nothing for any other line. */
  function Insert(senders: map<string, SenderRecord>, entry: Entry): map<string, SenderRecord> {
    match entry
    case None => senders
    case Some(e) => senders[e.0 := e.1]
  }

  /** The dictionary `load_senders` returns for the file `lines`. */
  function Directory(lines: seq<string>): map<string, SenderRecord> {
    Fold(Entries(lines))
  }

  /** Entry `i` is the last one naming `email`. */
  predicate IsLastFor(entries: seq<Entry>, email: string, i: int) {
    0 <= i < |entries| && Names(entries[i], email)
    && forall j :: i < j < |entries| ==> !Names(entries[j], email)
  }

  /** An email is in the dictionary only if some entry names it. */
  lemma {:induction false} FoldOnlyNamed(entries: seq<Entry>, email: string)
    requires email in Fold(entries)
    ensures exists i :: 0 <= i < |entries| && Names(entries[i], email)
    decreases |entries|
  {
    var n := |entries| - 1;
    var prefix := entries[..n];
    if !Names(entries[n], email) {
      assert email in Fold(prefix);
      FoldOnlyNamed(prefix, email);
      var i :| 0 <= i < |prefix| && Names(prefix[i], email);
      assert entries[i] == prefix[i];
    }
  }

  /** The last entry naming an email decides its record. */
  lemma {:induction false} FoldLastWins(entries: seq<Entry>, email: string, i: int)
    requires IsLastFor(entries, email, i)
    ensures email in Fold(entries)
    ensures Fold(entries)[email] == entries[i].value.1
    decreases |entries|
  {
    var n := |entries| - 1;
    var prefix := entries[..n];
    if i < n {
      assert !Names(entries[n], email);
      assert IsLastFor(prefix, email, i) by {
        forall j | i < j < |prefix| ensures !Names(prefix[j], email) {
          assert prefix[j] == entries[j];
        }
      }
      FoldLastWins(prefix, email, i);
    }
  }

  /** Every email some entry names has a last entry naming it. */
  lemma {:induction false} NamedHasLast(entries: seq<Entry>, email: string, i: int)
    requires 0 <= i < |entries| && Names(entries[i], email)
    ensures exists k :: IsLastFor(entries, email, k)
    decreases |entries| - i
  {
    if !IsLastFor(entries, email, i) {
      var j :| i < j < |entries| && Names(entries[j], email);
      NamedHasLast(entries, email, j);
    }
  }

  /**
   * The directory holds exactly the emails that some well-formed line declares,
   * each with the name and pass of the last line that declares it; lines of any
   * other shape (empty ones included) contribute nothing.
   */
  lemma DirectoryContents(lines: seq<string>, email: string)
    ensures email in Directory(lines) <==> exists i :: 0 <= i < |lines| && Declares(lines[i], email)
    ensures email in Directory(lines) ==>
              exists k :: 0 <= k < |lines| && Declares(lines[k], email)
                && (forall j :: k < j < |lines| ==> !Declares(lines[j], email))
                && Directory(lines)[email] == ParseLine(lines[k]).value.1
  {
    var entries := Entries(lines);
    if email in Directory(lines) {
      FoldOnlyNamed(entries, email);
      var i :| 0 <= i < |entries| && Names(entries[i], email);
      NamedHasLast(entries, email, i);
      var k :| IsLastFor(entries, email, k);
      FoldLastWins(entries, email, k);
      assert forall j :: k < j < |lines| ==> entries[j] == ParseLine(lines[j]);
      assert entries[k] == ParseLine(lines[k]);
    } else if exists i :: 0 <= i < |lines| && Declares(lines[i], email) {
      var i :| 0 <= i < |lines| && Declares(lines[i], email);
      assert Names(entries[i], email);
      NamedHasLast(entries, email, i);
      var k :| IsLastFor(entries, email, k);
      FoldLastWins(entries, email, k);
    }
  }

  /** A file with no lines (or no file at all) gives the empty directory. */
  lemma EmptyFileEmptyDirectory()
    ensures Directory([]) == map[]
  {
  }

  /** Appending a malformed line leaves the directory as it was. */
  lemma MalformedLineIgnored(lines: seq<string>, line: string)
    requires Occurrences(Strip(line), Delimiter) != 2
    ensures Directory(lines + [line]) == Directory(lines)
  {
    var entries := Entries(lines + [line]);
    assert entries[..|lines|] == Entries(lines);
  }

  /** Reading one more line updates the directory by that line's entry, if it has one. */
  lemma DirectoryStep(lines: seq<string>, i: int)
    requires 0 <= i < |lines|
    ensures Directory(lines[..i + 1]) == Insert(Directory(lines[..i]), ParseLine(lines[i]))
  {
    var entries := Entries(lines[..i + 1]);
    assert entries[..i] == Entries(lines[..i]);
    assert entries[i] == ParseLine(lines[i]);
    assert Fold(entries) == Insert(Fold(entries[..i]), entries[i]);
  }

  /** `load_senders`: a loop over the lines, inserting or overwriting one entry per well-formed line. */
  method LoadSenders(lines: seq<string>) returns (senders: map<string, SenderRecord>)
    ensures senders == Directory(lines)
  {
    senders := map[];
    for i := 0 to |lines|
      invariant senders == Directory(lines[..i])
    {
      DirectoryStep(lines, i);
      var parts := Split(Strip(lines[i]), Delimiter);
      if |parts| == 3 {
        var email, name, password := parts[0], parts[1], parts[2];
        senders := senders[email := SenderRecord(name, password)];
      }
    }
    assert lines[..|lines|] == lines;
  }
}
