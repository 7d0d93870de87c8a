/** Building the campus graph: node names get indices in list order, and
    every edge row that passes the field checks is inserted into the
    adjacency lists of both of its ends. */
module EdgeLoader {
  import opened CostModel
  import opened Graphs
  import opened TextFields
  import opened PathEngine

  /** getline(ss, field, ','): the text up to the first comma, and what
      follows that comma. Without a comma the field is the whole rest and
      nothing follows; reading past the end yields an empty field. */
  function SplitField(s: string): (r: (string, string))
    ensures ',' !in r.0
    ensures ',' in s ==> s == r.0 + [','] + r.1
    ensures ',' !in s ==> r.0 == s && r.1 == []
  {
    if s == [] then ([], [])
    else if s[0] == ',' then ([], s[1..])
    else
      var r' := SplitField(s[1..]);
      assert s == [s[0]] + s[1..];
      ([s[0]] + r'.0, r'.1)
  }

  /** The first four comma-separated fields of a CSV line, untrimmed; a
      missing field is empty and anything after the fourth is ignored. */
  function Fields(line: string): (string, string, string, string)
  {
    var (a, r1) := SplitField(line);
    var (b, r2) := SplitField(r1);
    var (sd, r3) := SplitField(r2);
    var (sc, _) := SplitField(r3);
    (a, b, sd, sc)
  }

  /** No field holds a comma, and a line without a comma is a single field
      followed by three empty ones. */
  lemma FieldsShape(line: string)
    ensures var (a, b, sd, sc) := Fields(line); ',' !in a && ',' !in b && ',' !in sd && ',' !in sc
    ensures ',' !in line ==> Fields(line) == (line, [], [], [])
  {
  }

  /** The outcome of the row check of lines 134-142. */
  datatype Parsed = Rejected | Accepted(from: string, to: string, dist: nat, conv: int)

  /** Trim the four fields; reject the row when a name is empty or a
      number field is not a digit string; otherwise read both numbers and
      clamp the convenience score. */
  function Parse(line: string): (r: Parsed)
    ensures r.Accepted? ==> r.from != [] && r.to != [] && 0 <= r.conv <= MAX_CONV
  {
    var (fa, fb, fd, fc) := Fields(line);
    var a, b, sd, sc := Trimmed(fa), Trimmed(fb), Trimmed(fd), Trimmed(fc);
    if a == [] || b == [] || !IsNumber(sd) || !IsNumber(sc) then Rejected
    else Accepted(a, b, DecimalValue(sd), ClampConv(DecimalValue(sc)))
  }

  /** The names of an accepted row hold no comma and no surrounding
      whitespace. */
  lemma AcceptedNamesClean(line: string)
    requires Parse(line).Accepted?
    ensures ',' !in Parse(line).from && ',' !in Parse(line).to
    ensures Trimmed(Parse(line).from) == Parse(line).from && Trimmed(Parse(line).to) == Parse(line).to
  {
    var (fa, fb, fd, fc) := Fields(line);
    TrimIdempotent(fa);
    TrimIdempotent(fb);
    TrimmedIsCore(fa);
    TrimmedIsCore(fb);
  }

  /** An accepted row yields a well-weighted edge: distance at least 0 and
      convenience within 0..MAX_CONV. */
  lemma AcceptedEdgeWeighted(line: string, to: int)
    requires Parse(line).Accepted?
    ensures WellWeighted(Edge(to, Parse(line).dist, Parse(line).conv))
  {
  }

  /** The field before the first comma is split off exactly. */
  lemma {:induction false} SplitFieldAt(x: string, y: string)
    requires ',' !in x
    ensures SplitField(x + [','] + y) == (x, y)
    decreases |x|
  {
    var s := x + [','] + y;
    if x == [] {
      assert s[1..] == y;
    } else {
      SplitFieldAt(x[1..], y);
      assert s[0] == x[0] && x[0] in x;
      assert s[1..] == x[1..] + [','] + y;
      assert x == [x[0]] + x[1..];
    }
  }

  /** A line with four fields splits into them. */
  lemma FieldsOf(a: string, b: string, sd: string, sc: string)
    requires ',' !in a && ',' !in b && ',' !in sd && ',' !in sc
    ensures Fields(a + "," + b + "," + sd + "," + sc) == (a, b, sd, sc)
  {
    SplitFieldAt(a, b + "," + sd + "," + sc);
    assert a + "," + b + "," + sd + "," + sc == a + [','] + (b + "," + sd + "," + sc);
    SplitFieldAt(b, sd + "," + sc);
    assert b + "," + sd + "," + sc == b + [','] + (sd + "," + sc);
    SplitFieldAt(sd, sc);
    assert sd + "," + sc == sd + [','] + sc;
  }

  /** Parse, once the line is known to split into the four given fields
      and they are known to trim to the four given strings. */
  lemma {:induction false} ParseSplit(line: string, fa: string, fb: string, fd: string, fc: string,
                   a: string, b: string, sd: string, sc: string)
    requires Fields(line) == (fa, fb, fd, fc)
    requires Trimmed(fa) == a && Trimmed(fb) == b && Trimmed(fd) == sd && Trimmed(fc) == sc
    ensures a == [] || b == [] || !IsNumber(sd) || !IsNumber(sc) ==> Parse(line) == Rejected
    ensures a != [] && b != [] && IsNumber(sd) && IsNumber(sc) ==>
              Parse(line) == Accepted(a, b, DecimalValue(sd), ClampConv(DecimalValue(sc)))
  {
  }

  /** A name as it may appear in an accepted row: non-empty, without a
      comma, and neither starting nor ending with whitespace. */
  ghost predicate CleanName(x: string)
  {
    x != [] && ',' !in x && !IsSpace(x[0]) && !IsSpace(x[|x| - 1])
  }

  /** A clean field between two runs of whitespace holds no comma and
      trims back to itself. */
  lemma PaddedField(pre: string, x: string, post: string)
    requires AllSpace(pre) && AllSpace(post) && CleanName(x)
    ensures ',' !in pre + x + post && Trimmed(pre + x + post) == x
  {
    assert ',' !in pre && ',' !in post by {
      assert !IsSpace(',');
    }
    TrimPadding(pre, x, post);
  }

  /** Whitespace around the fields of a row (blanks, tabs, a Windows line
      end), each run of any length of its own, does not change how the row
      is read. */
  lemma {:induction false} ParsePaddedRow(line: string, p1: string, p2: string, p3: string, p4: string,
                                          p5: string, p6: string, p7: string, eol: string,
                                          a: string, b: string, sd: string, sc: string)
    requires AllSpace(p1) && AllSpace(p2) && AllSpace(p3) && AllSpace(p4)
    requires AllSpace(p5) && AllSpace(p6) && AllSpace(p7) && AllSpace(eol)
    requires CleanName(a) && CleanName(b) && IsNumber(sd) && IsNumber(sc)
    requires line == (p1 + a + p2) + "," + (p3 + b + p4) + "," + (p5 + sd + p6) + "," + (p7 + sc + eol)
    ensures Parse(line) == Accepted(a, b, DecimalValue(sd), ClampConv(DecimalValue(sc)))
  {
    assert CleanName(sd) && CleanName(sc) by {
      assert !IsDigit(',');
    }
    var fa, fb, fd, fc := p1 + a + p2, p3 + b + p4, p5 + sd + p6, p7 + sc + eol;
    PaddedField(p1, a, p2);
    PaddedField(p3, b, p4);
    PaddedField(p5, sd, p6);
    PaddedField(p7, sc, eol);
    FieldsOf(fa, fb, fd, fc);
    ParseSplit(line, fa, fb, fd, fc, a, b, sd, sc);
  }

  /** A negative convenience score makes the row bad; it is not clamped. */
  lemma ParseNegativeScore(line: string)
    requires line == "A" + "," + "B" + "," + "10" + "," + "-10"
    ensures Parse(line).Rejected?
  {
    FieldsOf("A", "B", "10", "-10");
    TrimStartAt("-10", 0);
    TrimEndAt("-10", 3);
    SignedRejected("-10");
    ParseSplit(line, "A", "B", "10", "-10", Trimmed("A"), Trimmed("B"), Trimmed("10"), "-10");
  }

  /** A blank name makes the row bad. */
  lemma ParseBlankName(line: string)
    requires line == "A" + "," + " " + "," + "1" + "," + "1"
    ensures Parse(line).Rejected?
  {
    FieldsOf("A", " ", "1", "1");
    TrimStartAt(" ", 1);
    ParseSplit(line, "A", " ", "1", "1", Trimmed("A"), "", Trimmed("1"), Trimmed("1"));
  }

  /** A row without its fourth field makes the row bad. */
  lemma ParseMissingField(line: string)
    requires line == "A" + "," + ("B" + "," + "1")
    ensures Parse(line).Rejected?
  {
    SplitFieldAt("A", "B" + "," + "1");
    SplitFieldAt("B", "1");
    assert ',' !in "1";
    assert SplitField("") == ("", "");
    assert Fields(line).3 == "";
    assert Trimmed("") == "";
  }

  /** operator[] on the name map: a known name's index, and 0 for a name
      that is not there (which operator[] then inserts with that value). */
  function Resolve(ids: map<string, int>, name: string): int
  {
    if name in ids then ids[name] else 0
  }

  /** The two push_backs of lines 143-144: one entry in u's list and one in
      v's; every other list is left as it was. */
  function Inserted(G: Graph, u: int, v: int, d: int, c: int): (H: Graph)
    requires 0 <= u < |G| && 0 <= v < |G|
    ensures |H| == |G|
    ensures forall w :: 0 <= w < |G| ==>
      H[w] == G[w] + (if w == u then [Edge(v, d, c)] else []) + (if w == v then [Edge(u, d, c)] else [])
  {
    var G1 := G[u := G[u] + [Edge(v, d, c)]];
    G1[v := G1[v] + [Edge(u, d, c)]]
  }

  /** Inserting a row keeps every edge paired with its twin. */
  lemma InsertKeepsSymmetric(G: Graph, u: int, v: int, d: int, c: int)
    requires 0 <= u < |G| && 0 <= v < |G| && Symmetric(G)
    ensures Symmetric(Inserted(G, u, v, d, c))
  {
    var H: Graph := Inserted(G, u, v, d, c);
    forall x: int, y: int, d': int, c': int | 0 <= x < |H| && 0 <= y < |H| && Edge(y, d', c') in H[x]
      ensures Edge(x, d', c') in H[y]
    {
      if Edge(y, d', c') in G[x] {
        assert Edge(x, d', c') in G[y];
        assert forall e :: e in G[y] ==> e in H[y];
      } else if x == u && y == v && d' == d && c' == c {
        assert H[v][|H[v]| - 1] == Edge(u, d, c);
      } else {
        assert x == v && y == u && d' == d && c' == c;
        assert H[u] == G[u] + [Edge(v, d, c)] + (if u == v then [Edge(u, d, c)] else []);
        assert H[u][|G[u]|] == Edge(v, d, c);
      }
    }
  }

  /** Inserting an edge between two nodes with accepted weights keeps the
      graph well formed. */
  lemma InsertKeepsWellFormed(G: Graph, u: int, v: int, d: int, c: int)
    requires 0 <= u < |G| && 0 <= v < |G| && WellFormed(G) && WellWeighted(Edge(0, d, c))
    ensures WellFormed(Inserted(G, u, v, d, c))
  {
    var H: Graph := Inserted(G, u, v, d, c);
    forall w: int, i: int | 0 <= w < |H| && 0 <= i < |H[w]|
      ensures 0 <= H[w][i].to < |H| && WellWeighted(H[w][i])
    {
      if i >= |G[w]| {
        assert H[w][i] == Edge(v, d, c) || H[w][i] == Edge(u, d, c);
      } else {
        assert H[w][i] == G[w][i];
      }
    }
  }

  /** The number of adjacency entries over all lists. */
  function EntryCount(G: Graph): (n: nat)
  {
    if |G| == 0 then 0 else EntryCount(G[..|G| - 1]) + |G[|G| - 1]|
  }

  /** The total bounds every list's length, and is zero exactly when every
      list is empty. */
  lemma {:induction false} EntryCountBounds(G: Graph)
    ensures forall w :: 0 <= w < |G| ==> |G[w]| <= EntryCount(G)
    ensures EntryCount(G) == 0 <==> forall w :: 0 <= w < |G| ==> G[w] == []
    decreases |G|
  {
    if |G| > 0 {
      var front := G[..|G| - 1];
      EntryCountBounds(front);
      assert forall w :: 0 <= w < |G| - 1 ==> G[w] == front[w];
    }
  }

  /** Appending to one list adds its length to the entry count. */
  lemma {:induction false} EntryCountGrow(G: Graph, w: int, s: seq<Edge>)
    requires 0 <= w < |G|
    ensures EntryCount(G[w := G[w] + s]) == EntryCount(G) + |s|
    decreases |G|
  {
    var H := G[w := G[w] + s];
    if w < |G| - 1 {
      assert H[..|H| - 1] == G[..|G| - 1][w := G[w] + s];
      EntryCountGrow(G[..|G| - 1], w, s);
    } else {
      assert H[..|H| - 1] == G[..|G| - 1];
    }
  }

  /** An accepted row adds exactly two adjacency entries. */
  lemma InsertAddsTwo(G: Graph, u: int, v: int, d: int, c: int)
    requires 0 <= u < |G| && 0 <= v < |G|
    ensures EntryCount(Inserted(G, u, v, d, c)) == EntryCount(G) + 2
  {
    var G1 := G[u := G[u] + [Edge(v, d, c)]];
    EntryCountGrow(G, u, [Edge(v, d, c)]);
    EntryCountGrow(G1, v, [Edge(u, d, c)]);
  }

  /** The graph of n nodes without edges. */
  function EmptyGraph(n: nat): (G: Graph)
    ensures |G| == n && forall w :: 0 <= w < n ==> G[w] == []
  {
    seq(n, _ => [])
  }

  lemma {:induction false} EmptyGraphFacts(n: nat)
    ensures EntryCount(EmptyGraph(n)) == 0 && WellFormed(EmptyGraph(n)) && Symmetric(EmptyGraph(n))
  {
    if n > 0 {
      EmptyGraphFacts(n - 1);
      assert EmptyGraph(n)[..n - 1] == EmptyGraph(n - 1);
    }
  }

  /** The data lines of the edge file: everything after the header line. */
  function Rows(lines: seq<string>): seq<string>
  {
    if |lines| == 0 then [] else lines[1..]
  }

  /** How many of the rows fail the check. */
  function RejectedCount(rows: seq<string>): (n: nat)
    ensures n <= |rows|
  {
    if rows == [] then 0
    else RejectedCount(rows[..|rows| - 1]) + (if Parse(rows[|rows| - 1]).Rejected? then 1 else 0)
  }

  /** k is the last position of nm in names. */
  ghost predicate IsLastIndex(names: seq<string>, nm: string, k: int)
  {
    0 <= k < |names| && names[k] == nm && forall j :: k < j < |names| ==> names[j] != nm
  }

  /** Lines 134-137: split the line, trim the four fields and check them.
      ok says whether the row passes; when it does, the trimmed fields are
      returned and Parse accepts the row with their values. */
  method ReadRow(line: string) returns (ok: bool, a: string, b: string, sd: string, sc: string)
    ensures ok <==> Parse(line).Accepted?
    ensures ok ==> IsNumber(sd) && IsNumber(sc)
                   && Parse(line) == Accepted(a, b, DecimalValue(sd), ClampConv(DecimalValue(sc)))
  {
    var (fa, fb, fd, fc) := Fields(line);
    a := Trim(fa);
    b := Trim(fb);
    sd := Trim(fd);
    sc := Trim(fc);
    ParseSplit(line, fa, fb, fd, fc, a, b, sd, sc);
    ok := !(a == [] || b == [] || !IsNumber(sd) || !IsNumber(sc));
  }

  /** The name map lines 117-124 build: each name in turn gets the index
      it has in the list, so a later duplicate overrides an earlier one. */
  function NameIndex(names: seq<string>): (ids: map<string, int>)
    ensures forall nm :: nm in ids <==> nm in names
    ensures forall nm :: nm in ids ==> IsLastIndex(names, nm, ids[nm])
  {
    if names == [] then map[]
    else
      var front := names[..|names| - 1];
      assert forall k :: 0 <= k < |front| ==> front[k] == names[k];
      NameIndex(front)[names[|names| - 1] := |names| - 1]
  }

  /** Every listed name maps to its last position in the list, and every
      other name in the map (one first met in an edge row) maps to 0. */
  ghost predicate NamesIndexed(names: seq<string>, ids: map<string, int>)
  {
    && (forall k :: 0 <= k < |names| ==> names[k] in ids && IsLastIndex(names, names[k], ids[names[k]]))
    && (forall nm :: nm in ids && nm !in names ==> ids[nm] == 0)
  }

  /** operator[] yields a known name's stored index, and otherwise 0: the
      result is always a stored index or 0. */
  lemma ResolveStored(ids: map<string, int>, name: string)
    ensures name in ids ==> Resolve(ids, name) == ids[name]
    ensures Resolve(ids, name) == 0 || Resolve(ids, name) in ids.Values
  {
  }

  /** operator[] never yields an index outside the node list, as long as
      the list is not empty and every stored index is in range. */
  lemma ResolveInRange(ids: map<string, int>, name: string, n: int)
    requires n > 0 && forall nm :: nm in ids ==> 0 <= ids[nm] < n
    ensures 0 <= Resolve(ids, name) < n
  {
  }

  /** Resolving two names with operator[] keeps the name map indexed. */
  lemma ResolveKeepsIndexed(names: seq<string>, ids: map<string, int>, a: string, b: string)
    requires NamesIndexed(names, ids)
    ensures NamesIndexed(names, ids[a := Resolve(ids, a)][b := Resolve(ids, b)])
  {
  }

  /** What one data row does to the adjacency lists and the name map (one
      pass of lines 133-145): a rejected row changes neither; an accepted
      row resolves both names with operator[] and inserts the edge into
      both lists. An index outside the lists, which a valid store with at
      least one node never produces, leaves the lists alone. */
  function LoadRow(G: Graph, ids: map<string, int>, line: string): (Graph, map<string, int>)
  {
    match Parse(line)
    case Rejected => (G, ids)
    case Accepted(a, b, d, c) =>
      var u, v := Resolve(ids, a), Resolve(ids, b);
      var ids' := ids[a := u][b := v];
      if 0 <= u < |G| && 0 <= v < |G| then (Inserted(G, u, v, d, c), ids') else (G, ids')
  }

  /** The lists and the name map after the row loop has read the first n
      rows in order. */
  function Loaded(G: Graph, ids: map<string, int>, rows: seq<string>, n: nat): (Graph, map<string, int>)
    requires n <= |rows|
  {
    if n == 0 then (G, ids)
    else
      var (G', ids') := Loaded(G, ids, rows, n - 1);
      LoadRow(G', ids', rows[n - 1])
  }

  /** Counting one more row. */
  lemma RejectedCountStep(rows: seq<string>, i: int)
    requires 0 <= i < |rows|
    ensures RejectedCount(rows[..i + 1]) == RejectedCount(rows[..i]) + (if Parse(rows[i]).Rejected? then 1 else 0)
  {
    assert rows[..i + 1][..i] == rows[..i];
  }

  /** The engine's global state: the node list, the name index and the
      adjacency lists. */
  class GraphStore {
    var nodes: seq<string>
    var name2id: map<string, int>
    var graph: Graph

    /** Indices in the name map point at nodes, there is one adjacency list
        per node, every edge has accepted weights and its twin. */
    ghost predicate Valid()
      reads this
    {
      && |graph| == |nodes|
      && (forall nm :: nm in name2id ==> 0 <= name2id[nm] < |nodes|)
      && WellFormed(graph)
      && Symmetric(graph)
    }

    constructor ()
      ensures nodes == [] && name2id == map[] && graph == []
      ensures Valid()
    {
      nodes, name2id, graph := [], map[], [];
    }

    /** name2id[name] with operator[]: an unknown name is inserted with 0. */
    method Id(name: string) returns (id: int)
      modifies this
      ensures id == Resolve(old(name2id), name)
      ensures name2id == old(name2id)[name := id]
      ensures nodes == old(nodes) && graph == old(graph)
      ensures old(Valid()) && |nodes| > 0 ==> Valid()
    {
      if name !in name2id {
        name2id := name2id[name := 0];
      }
      id := name2id[name];
    }

    /** Lines 117-124: clear both, then give each name the index it has in
        the list; a later duplicate overrides an earlier one. */
    method LoadNodes(names: seq<string>)
      modifies this
      ensures nodes == names && graph == old(graph)
      ensures name2id == NameIndex(names)
    {
      nodes, name2id := [], map[];
      var i := 0;
      while i < |names|
        invariant 0 <= i <= |names| && nodes == names[..i] && graph == old(graph)
        invariant name2id == NameIndex(names[..i])
      {
        assert names[..i + 1][..i] == names[..i];
        name2id := name2id[names[i] := |nodes|];
        nodes := nodes + [names[i]];
        i := i + 1;
      }
      assert names[..i] == names;
    }

    /** The two push_backs of lines 143-144. */
    method AddEdge(u: int, v: int, d: int, c: int)
      requires Valid() && 0 <= u < |graph| && 0 <= v < |graph| && WellWeighted(Edge(0, d, c))
      modifies this
      ensures Valid() && nodes == old(nodes) && name2id == old(name2id)
      ensures graph == Inserted(old(graph), u, v, d, c)
    {
      ghost var G0 := graph;
      graph := graph[u := graph[u] + [Edge(v, d, c)]];
      graph := graph[v := graph[v] + [Edge(u, d, c)]];
      InsertKeepsSymmetric(G0, u, v, d, c);
      InsertKeepsWellFormed(G0, u, v, d, c);
    }

    /** One pass of the row loop (lines 133-145): split and trim the
        fields, count a rejected row in bad, otherwise resolve both names
        and insert the edge into both lists. */
    method AcceptRow(line: string, bad: int) returns (bad': int)
      requires Valid()
      requires |nodes| > 0 || Parse(line).Rejected?
      modifies this
      ensures Valid() && nodes == old(nodes)
      ensures Parse(line).Rejected? ==> bad' == bad + 1 && graph == old(graph) && name2id == old(name2id)
      ensures Parse(line).Accepted? ==>
        var r := Parse(line);
        var u, v := Resolve(old(name2id), r.from), Resolve(old(name2id), r.to);
        && bad' == bad
        && name2id == old(name2id)[r.from := u][r.to := v]
        && graph == Inserted(old(graph), u, v, r.dist, r.conv)
      ensures graph == LoadRow(old(graph), old(name2id), line).0
      ensures name2id == LoadRow(old(graph), old(name2id), line).1
      ensures EntryCount(graph) == EntryCount(old(graph)) + (if Parse(line).Accepted? then 2 else 0)
      ensures NamesIndexed(nodes, old(name2id)) ==> NamesIndexed(nodes, name2id)
    {
      var ok, a, b, sd, sc := ReadRow(line);
      if !ok {
        bad' := bad + 1;
        return;
      }
      ResolveInRange(name2id, a, |graph|);
      ResolveInRange(name2id, b, |graph|);
      var u := Id(a);
      var v := Id(b);
      var d := DecimalValue(sd);
      var cv := DecimalValue(sc);
      cv := ClampConv(cv);
      ghost var G0 := graph;
      AddEdge(u, v, d, cv);
      InsertAddsTwo(G0, u, v, d, cv);
      if NamesIndexed(nodes, old(name2id)) {
        ResolveKeepsIndexed(nodes, old(name2id), a, b);
      }
      bad' := bad;
    }

    /** The state of the row loop after i rows, started from lists G0 and
        name map ids0: bad counts the rejected rows, each accepted row has
        added two entries, and the lists and map are those the first i rows
        give. */
    ghost predicate LoadedUpTo(rows: seq<string>, i: int, bad: int, N0: seq<string>, G0: Graph, ids0: map<string, int>)
      reads this
    {
      && 0 <= i <= |rows|
      && Valid() && nodes == N0 && NamesIndexed(nodes, name2id)
      && bad == RejectedCount(rows[..i])
      && EntryCount(graph) == EntryCount(G0) + 2 * (i - bad)
      && graph == Loaded(G0, ids0, rows, i).0
      && name2id == Loaded(G0, ids0, rows, i).1
    }

    /** One turn of the row loop: row i is read and the loop state moves on
        to i + 1 rows. */
    method NextRow(rows: seq<string>, i: int, bad: int, ghost G0: Graph, ghost ids0: map<string, int>)
      returns (bad': int)
      requires 0 <= i < |rows| && LoadedUpTo(rows, i, bad, nodes, G0, ids0)
      requires |nodes| > 0 || Parse(rows[i]).Rejected?
      modifies this
      ensures LoadedUpTo(rows, i + 1, bad', old(nodes), G0, ids0)
    {
      RejectedCountStep(rows, i);
      bad' := AcceptRow(rows[i], bad);
    }

    /** The row loop of lines 133-145 over the data lines: bad counts the
        rejected rows and each accepted row adds two adjacency entries. */
    method LoadEdges(rows: seq<string>) returns (bad: int)
      requires Valid() && NamesIndexed(nodes, name2id)
      requires |nodes| > 0 || forall k :: 0 <= k < |rows| ==> Parse(rows[k]).Rejected?
      modifies this
      ensures Valid() && nodes == old(nodes) && NamesIndexed(nodes, name2id)
      ensures bad == RejectedCount(rows)
      ensures EntryCount(graph) == EntryCount(old(graph)) + 2 * (|rows| - bad)
      ensures graph == Loaded(old(graph), old(name2id), rows, |rows|).0
      ensures name2id == Loaded(old(graph), old(name2id), rows, |rows|).1
    {
      bad := 0;
      var i := 0;
      assert rows[..0] == [];
      while i < |rows|
        invariant LoadedUpTo(rows, i, bad, old(nodes), old(graph), old(name2id))
      {
        bad := NextRow(rows, i, bad, old(graph), old(name2id));
        i := i + 1;
      }
      assert rows[..i] == rows;
    }

    /** initGraph without its file handling: load the node names, give
        every node an empty list, skip the header line and run the row
        loop over the rest. */
    method InitGraph(names: seq<string>, lines: seq<string>) returns (bad: int)
      requires |names| > 0 || forall k :: 0 <= k < |Rows(lines)| ==> Parse(Rows(lines)[k]).Rejected?
      modifies this
      ensures Valid() && nodes == names && NamesIndexed(names, name2id)
      ensures bad == RejectedCount(Rows(lines))
      ensures EntryCount(graph) == 2 * (|Rows(lines)| - bad)
      ensures graph == Loaded(EmptyGraph(|names|), NameIndex(names), Rows(lines), |Rows(lines)|).0
      ensures name2id == Loaded(EmptyGraph(|names|), NameIndex(names), Rows(lines), |Rows(lines)|).1
    {
      LoadNodes(names);
      graph := EmptyGraph(|nodes|);
      EmptyGraphFacts(|nodes|);
      bad := LoadEdges(Rows(lines));
    }

    /** findShortest (line 154): the solver on the loaded graph in
        Shortest mode. Since the graph is symmetric, an empty answer also
        means s cannot be reached from t. */
    method FindShortest(s: int, t: int) returns (path: seq<int>)
      requires Valid() && 0 <= s < |graph| && 0 <= t < |graph|
      ensures path != [] ==> IsPath(graph, path, s, t)
      ensures path != [] ==> forall q :: IsPath(graph, q, s, t) ==>
                PathCost(graph, path, Shortest) <= PathCost(graph, q, Shortest)
      ensures path == [] <==> !Reachable(graph, s, t)
      ensures path == [] <==> !Reachable(graph, t, s)
    {
      path := Dijkstra(graph, s, t, Shortest);
      ReachableSymmetric(graph, s, t);
    }

    /** findConvenient (line 155): the solver on the loaded graph in
        Convenient mode. */
    method FindConvenient(s: int, t: int) returns (path: seq<int>)
      requires Valid() && 0 <= s < |graph| && 0 <= t < |graph|
      ensures path != [] ==> IsPath(graph, path, s, t)
      ensures path != [] ==> forall q :: IsPath(graph, q, s, t) ==>
                PathCost(graph, path, Convenient) <= PathCost(graph, q, Convenient)
      ensures path == [] <==> !Reachable(graph, s, t)
      ensures path == [] <==> !Reachable(graph, t, s)
    {
      path := Dijkstra(graph, s, t, Convenient);
      ReachableSymmetric(graph, s, t);
    }
  }
}
