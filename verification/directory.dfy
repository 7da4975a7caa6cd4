/** `formatClientsForForm`: the directory the booking form loads, mapping a key
    derived from each client's name to that client's contact details. Rows are
    visited in order and a later row overwrites an earlier one with the same
    key. */
module FormDirectory {
  import opened Wrappers
  import opened Clients

  // ---------------------------------------------------------------------------
  // The key: name.toLowerCase().replace(/[^a-z0-9]/g, '').substring(0, 10)

  /** `toLowerCase` of one character, as far as the key can see it: the
      ASCII capitals, and the two other characters whose lower case holds a
      letter the key keeps (U+0130 becomes "i" and a combining dot, the Kelvin
      sign U+212A becomes "k"). Every other character is left as it is. */
  function LowerChar(c: char): string
  {
    if 'A' <= c <= 'Z' then [(c as int + 32) as char]
    else if c == '\U{130}' then ['i', '\U{307}']
    else if c == '\U{212A}' then ['k']
    else [c]
  }

  function ToLower(s: string): string
  {
    if s == [] then [] else LowerChar(s[0]) + ToLower(s[1..])
  }

  /** A character of the class `[a-z0-9]`. */
  predicate IsKeyChar(c: char)
  {
    'a' <= c <= 'z' || '0' <= c <= '9'
  }

  /** `replace(/[^a-z0-9]/g, '')`: the key characters of `s`, in order. */
  function KeepKeyChars(s: string): (r: string)
    ensures |r| <= |s|
    ensures forall k | 0 <= k < |r| :: IsKeyChar(r[k])
    ensures forall c :: c in r <==> c in s && IsKeyChar(c)
  {
    if s == [] then []
    else (if IsKeyChar(s[0]) then [s[0]] else []) + KeepKeyChars(s[1..])
  }

  /** Stripping works piece by piece: the kept characters of a concatenation
      are those of each part, in order. */
  lemma {:induction false} KeepKeyCharsAppend(a: string, b: string)
    ensures KeepKeyChars(a + b) == KeepKeyChars(a) + KeepKeyChars(b)
  {
    if a != [] {
      assert (a + b)[0] == a[0];
      assert (a + b)[1..] == a[1..] + b;
      KeepKeyCharsAppend(a[1..], b);
    } else {
      assert a + b == b;
    }
  }

  /** The directory key of a client called `name`: at most ten characters,
      all from `[a-z0-9]`, and the start of the lower-cased name with every
      other character removed. */
  function DirectoryKey(name: string): (key: string)
    ensures |key| <= 10
    ensures forall k | 0 <= k < |key| :: IsKeyChar(key[k])
    ensures var kept := KeepKeyChars(ToLower(name));
      key <= kept && |key| == if |kept| < 10 then |kept| else 10
  {
    var kept := KeepKeyChars(ToLower(name));
    if |kept| <= 10 then kept else kept[..10]
  }

  lemma {:induction false} LowerOfKeyChars(s: string)
    requires forall k | 0 <= k < |s| :: IsKeyChar(s[k])
    ensures ToLower(s) == s
  {
    if s != [] {
      LowerOfKeyChars(s[1..]);
    }
  }

  lemma {:induction false} KeepOfKeyChars(s: string)
    requires forall k | 0 <= k < |s| :: IsKeyChar(s[k])
    ensures KeepKeyChars(s) == s
  {
    if s != [] {
      KeepOfKeyChars(s[1..]);
      assert s == [s[0]] + s[1..];
    }
  }

  /** A key is its own key: deriving twice changes nothing. */
  lemma DirectoryKeyIdempotent(name: string)
    ensures DirectoryKey(DirectoryKey(name)) == DirectoryKey(name)
  {
    var key := DirectoryKey(name);
    LowerOfKeyChars(key);
    KeepOfKeyChars(key);
  }

  // ---------------------------------------------------------------------------
  // The directory

  /** What the form receives for one client; a NULL phone becomes ''. */
  datatype FormEntry = FormEntry(id: int, name: string, email: string, phone: string, clientId: string)

  function Entry(c: Client): FormEntry
  {
    FormEntry(c.id, c.name, c.email, match c.phone case Some(p) => p case None => "", c.clientId)
  }

  /** The directory built from `rows`: each row in turn stored under its key. */
  function Directory(rows: seq<Client>): map<string, FormEntry>
  {
    if rows == [] then map[]
    else
      var last := rows[|rows| - 1];
      Directory(rows[..|rows| - 1])[DirectoryKey(last.name) := Entry(last)]
  }

  /** `formatClientsForForm(clients)` */
  method FormatClientsForForm(clients: seq<Client>) returns (formattedClients: map<string, FormEntry>)
    ensures formattedClients == Directory(clients)
  {
    formattedClients := map[];
    for i := 0 to |clients|
      invariant formattedClients == Directory(clients[..i])
    {
      var client := clients[i];
      var key := DirectoryKey(client.name);
      assert clients[..i + 1][..i] == clients[..i];
      formattedClients := formattedClients[key := Entry(client)];
    }
    assert clients[..|clients|] == clients;
  }

  /** One entry per distinct key among the rows, and no other. */
  lemma {:induction false} DirectoryKeys(rows: seq<Client>)
    ensures Directory(rows).Keys == set c | c in rows :: DirectoryKey(c.name)
  {
    if rows != [] {
      var init, last := rows[..|rows| - 1], rows[|rows| - 1];
      DirectoryKeys(init);
      assert rows == init + [last];
      assert forall c :: c in rows <==> c in init || c == last;
      assert (set c | c in rows :: DirectoryKey(c.name))
          == (set c | c in init :: DirectoryKey(c.name)) + {DirectoryKey(last.name)};
    }
  }

  /** The entry under a key is that of the last row with that key. */
  lemma {:induction false} DirectoryLastWins(rows: seq<Client>, i: nat)
    requires i < |rows|
    requires forall j | i < j < |rows| :: DirectoryKey(rows[j].name) != DirectoryKey(rows[i].name)
    ensures DirectoryKey(rows[i].name) in Directory(rows)
    ensures Directory(rows)[DirectoryKey(rows[i].name)] == Entry(rows[i])
  {
    var n := |rows| - 1;
    if i < n {
      var init := rows[..n];
      assert init[i] == rows[i];
      assert forall j | i < j < n :: init[j] == rows[j];
      DirectoryLastWins(init, i);
    }
  }

  /** The directory never has more entries than there are rows, so the
      `count` sent beside it can exceed its size when keys collide. */
  lemma {:induction false} DirectoryNoLarger(rows: seq<Client>)
    ensures |Directory(rows)| <= |rows|
  {
    if rows != [] {
      var last := rows[|rows| - 1];
      var m := Directory(rows[..|rows| - 1]);
      DirectoryNoLarger(rows[..|rows| - 1]);
      var key := DirectoryKey(last.name);
      if key in m {
        assert m[key := Entry(last)].Keys == m.Keys;
      } else {
        assert m[key := Entry(last)].Keys == m.Keys + {key};
      }
    }
  }

  /** Two rows whose names share a key leave one entry for both. */
  lemma CollisionLosesRow(a: Client, b: Client)
    requires DirectoryKey(a.name) == DirectoryKey(b.name)
    ensures Directory([a, b]) == map[DirectoryKey(b.name) := Entry(b)]
    ensures |Directory([a, b])| == 1
  {
    var key := DirectoryKey(b.name);
    assert [a, b][..1] == [a];
    assert [a][..0] == [];
    assert Directory([a]) == map[key := Entry(a)];
    assert Directory([a, b]) == map[key := Entry(a)][key := Entry(b)];
    assert map[key := Entry(a)][key := Entry(b)] == map[key := Entry(b)];
    assert map[key := Entry(b)].Keys == {key};
  }
}
