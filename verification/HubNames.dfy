/** Namespacing of upstream tools in src/hub.rs: the checks on names, the `__` join and the
    loading loop that builds one table from many upstreams. */
module HubNames {
  import opened Basics

  /** `s.contains("__")`. */
  predicate HasDouble(s: string) { exists i :: 0 <= i < |s| - 1 && s[i] == '_' && s[i + 1] == '_' }

  predicate AcceptedUpstream(name: string) {
    !HasDouble(name) && (name != "" ==> name[0] != '_' && name[|name| - 1] != '_')
  }

  predicate AcceptedTool(name: string) { !HasDouble(name) && (name != "" ==> name[0] != '_') }

  function Join(upstream: string, tool: string): string { upstream + "__" + tool }

  /** Split at the first `__`. */
  function SplitFirst(s: string): Option<(string, string)>
    decreases |s|
  {
    if |s| < 2 then None
    else if s[0] == '_' && s[1] == '_' then Some(("", s[2..]))
    else match SplitFirst(s[1..])
      case None => None
      case Some(r) => Some(([s[0]] + r.0, r.1))
  }

  /** A prefixed name splits back into the upstream and the tool it was made of. */
  lemma {:induction false} JoinSplits(upstream: string, tool: string)
    requires !HasDouble(upstream) && (upstream != "" ==> upstream[|upstream| - 1] != '_')
    ensures SplitFirst(Join(upstream, tool)) == Some((upstream, tool))
    decreases |upstream|
  {
    var s := Join(upstream, tool);
    if upstream == "" {
      assert s[2..] == tool;
    } else {
      var rest := upstream[1..];
      assert !HasDouble(rest) by {
        forall i | 0 <= i < |rest| - 1 ensures !(rest[i] == '_' && rest[i + 1] == '_') {
          assert rest[i] == upstream[i + 1] && rest[i + 1] == upstream[i + 2];
        }
      }
      JoinSplits(rest, tool);
      assert s[1..] == Join(rest, tool);
      assert s[0] == upstream[0] && (|upstream| > 1 ==> s[1] == upstream[1]);
      assert upstream == [upstream[0]] + rest;
    }
  }

  /** Distinct (upstream, tool) pairs never share a prefixed name. */
  lemma JoinInjective(u: string, t: string, v: string, w: string)
    requires AcceptedUpstream(u) && AcceptedUpstream(v) && Join(u, t) == Join(v, w)
    ensures u == v && t == w
  {
    JoinSplits(u, t);
    JoinSplits(v, w);
  }

  /** The check on the last character is exactly what the split needs: an upstream name without
      `__` gets its tools back if and only if it does not end in `_`. Otherwise the prefixed
      name is also that of another pair. */
  lemma JoinSplitsIff(upstream: string, tool: string)
    requires !HasDouble(upstream)
    ensures SplitFirst(Join(upstream, tool)) == Some((upstream, tool))
       <==> (upstream != "" ==> upstream[|upstream| - 1] != '_')
    ensures upstream != "" && upstream[|upstream| - 1] == '_'
        ==> Join(upstream, tool) == Join(upstream[..|upstream| - 1], "_" + tool)
  {
    if upstream != "" && upstream[|upstream| - 1] == '_' {
      var shorter := upstream[..|upstream| - 1];
      assert upstream == shorter + "_";
      assert Join(upstream, tool) == Join(shorter, "_" + tool);
      assert forall i | 0 <= i < |shorter| :: shorter[i] == upstream[i];
      JoinSplits(shorter, "_" + tool);
    } else {
      JoinSplits(upstream, tool);
    }
  }

  lemma {:induction false} SplitFirstSound(s: string)
    requires SplitFirst(s).Some?
    ensures var (a, b) := SplitFirst(s).value;
      s == a + "__" + b && forall i | 0 <= i < |a| :: !(s[i] == '_' && s[i + 1] == '_')
    decreases |s|
  {
    var (a, b) := SplitFirst(s).value;
    if s[0] == '_' && s[1] == '_' {
      assert s == "" + "__" + s[2..];
    } else {
      SplitFirstSound(s[1..]);
      assert s == [s[0]] + s[1..] == [s[0]] + (a[1..] + "__" + b) == a + "__" + b;
      forall i | 0 < i < |a| ensures !(s[i] == '_' && s[i + 1] == '_') {
        assert s[i] == s[1..][i - 1] && s[i + 1] == s[1..][i];
      }
    }
  }

  /** The split is at the first `__`: nothing before it holds one. */
  lemma SplitFirstIff(s: string, a: string, b: string)
    ensures SplitFirst(s) == Some((a, b)) <==>
      s == a + "__" + b && forall i | 0 <= i < |a| :: !(s[i] == '_' && s[i + 1] == '_')
  {
    if SplitFirst(s) == Some((a, b)) {
      SplitFirstSound(s);
    }
    if s == a + "__" + b && forall i | 0 <= i < |a| :: !(s[i] == '_' && s[i + 1] == '_') {
      assert forall i | 0 <= i < |a| :: s[i] == a[i];
      assert s[|a|] == '_';
      JoinSplits(a, b);
    }
  }

  lemma HasDoubleIff(s: string)
    ensures HasDouble(s) <==> exists a, b :: s == a + "__" + b
  {
    if HasDouble(s) {
      var i :| 0 <= i < |s| - 1 && s[i] == '_' && s[i + 1] == '_';
      assert s == s[..i] + "__" + s[i + 2..];
    }
    if a, b :| s == a + "__" + b {
      assert s[|a|] == '_' && s[|a| + 1] == '_';
    }
  }

  /** Which names are accepted: those of an upstream hold no `__` and neither start nor end
      with `_`; those of a tool hold no `__` and do not start with `_`. */
  lemma AcceptedIff(name: string)
    ensures AcceptedTool(name) <==> (forall a, b :: name != a + "__" + b) && (forall b :: name != "_" + b)
    ensures AcceptedUpstream(name) <==> AcceptedTool(name) && (forall a :: name != a + "_")
    ensures AcceptedTool("read_file") && AcceptedUpstream("my-server")
  {
    HasDoubleIff(name);
    if name != "" {
      assert name[0] == '_' ==> name == "_" + name[1..];
      assert name[|name| - 1] == '_' ==> name == name[..|name| - 1] + "_";
    }
    if b :| name == "_" + b {
      assert name[0] == '_';
    }
    if a :| name == a + "_" {
      assert name[|name| - 1] == '_';
    }
    assert forall i | 0 <= i < 8 :: "read_file"[i] != '_' || "read_file"[i + 1] != '_';
  }

  // ---------------------------------------------------------------- loading

  /** A listed tool, with the firewall's verdict on it (always true without a firewall). */
  datatype Tool = Tool(name: string, pinned: bool)

  /** What contacting an upstream yields. */
  datatype Listing = Unreachable | Listed(tools: seq<Tool>)

  datatype Upstream = Upstream(name: string, listing: Listing)

  datatype Proxied = Proxied(upstream: string, tool: string, prefixed: string)

  datatype Result<+T> = Ok(value: T) | BadUpstreamName(name: string) | Drift(upstream: string, tool: string)

  ghost predicate Registers(registered: set<string>, table: seq<Proxied>) {
    && (forall p | p in table :: p.prefixed in registered)
    && (forall name | name in registered :: exists p :: p in table && p.prefixed == name)
  }

  /** Every row is named after its own upstream and tool, both of which were accepted. */
  ghost predicate RowsSound(table: seq<Proxied>) {
    forall p | p in table ::
      p.prefixed == Join(p.upstream, p.tool) && AcceptedUpstream(p.upstream) && AcceptedTool(p.tool)
  }

  ghost predicate NamesDistinct(table: seq<Proxied>) {
    forall i, j | 0 <= i < j < |table| :: table[i].prefixed != table[j].prefixed
  }

  /** The first `k` servers offer this row: one of them lists such a tool. */
  ghost predicate Offered(servers: seq<Upstream>, k: nat, p: Proxied)
    requires k <= |servers|
  {
    exists i, j :: Offers(servers, k, i, j, p)
  }

  predicate Offers(servers: seq<Upstream>, k: nat, i: int, j: int, p: Proxied)
    requires k <= |servers|
  {
    && 0 <= i < k && servers[i].listing.Listed? && 0 <= j < |servers[i].listing.tools|
    && servers[i].name == p.upstream && servers[i].listing.tools[j].name == p.tool
    && AcceptedTool(p.tool) && p.prefixed == Join(p.upstream, p.tool)
  }

  function Row(upstream: string, tool: string): Proxied { Proxied(upstream, tool, Join(upstream, tool)) }

  /** Tool `j` of a listing is new: accepted, not in the table and not listed earlier. */
  predicate NewTool(name: string, tools: seq<Tool>, table: seq<Proxied>, j: nat)
    requires j < |tools|
  {
    && AcceptedTool(tools[j].name) && Row(name, tools[j].name) !in table
    && forall i | 0 <= i < j :: tools[i].name != tools[j].name
  }

  /** The rows of the new tools among the first `k`, in the order of the listing. */
  function NewRows(name: string, tools: seq<Tool>, table: seq<Proxied>, k: nat): seq<Proxied>
    requires k <= |tools|
  {
    if k == 0 then [] else
      NewRows(name, tools, table, k - 1) + (if NewTool(name, tools, table, k - 1) then [Row(name, tools[k - 1].name)] else [])
  }

  ghost predicate NewPinned(name: string, tools: seq<Tool>, table: seq<Proxied>, k: nat)
    requires k <= |tools|
  {
    forall j | 0 <= j < k && NewTool(name, tools, table, j) :: tools[j].pinned
  }

  /** The name set and the table agree, and the table's names are distinct. */
  ghost predicate TableOk(registered: set<string>, table: seq<Proxied>) {
    Registers(registered, table) && RowsSound(table) && NamesDistinct(table)
  }

  /** `table` adds to `table0` what the first `k` tools offer, none of them stopped. */
  ghost predicate Adds(name: string, tools: seq<Tool>, table0: seq<Proxied>, table: seq<Proxied>, k: nat)
    requires k <= |tools|
  {
    && table == table0 + NewRows(name, tools, table0, k) && NewPinned(name, tools, table0, k)
    && forall p :: p in table <==> p in table0 || OfferedBy(Upstream(name, Listed(tools[..k])), p)
  }

  /** The inner loop: the tools of one upstream whose name was accepted. */
  method AddTools(name: string, tools: seq<Tool>, registered0: set<string>, table0: seq<Proxied>)
    returns (drift: Option<string>, registered: set<string>, table: seq<Proxied>)
    requires AcceptedUpstream(name)
    requires Registers(registered0, table0) && RowsSound(table0) && NamesDistinct(table0)
    ensures Registers(registered, table) && RowsSound(table) && NamesDistinct(table)
    ensures table0 <= table && (drift.None? ==> table == table0 + NewRows(name, tools, table0, |tools|))
    ensures drift.None? ==> NewPinned(name, tools, table0, |tools|)
    ensures drift.Some? ==> exists j :: (0 <= j < |tools| && NewTool(name, tools, table0, j)
      && tools[j].name == drift.value && !tools[j].pinned && NewPinned(name, tools, table0, j))
    ensures drift.None? ==> forall p :: p in table <==>
      p in table0 || OfferedBy(Upstream(name, Listed(tools)), p)
  {
    registered, table := registered0, table0;
    drift := None;
    for k := 0 to |tools|
      invariant TableOk(registered, table) && Adds(name, tools, table0, table, k)
    {
      var tool := tools[k];
      if AcceptedTool(tool.name) {
        var prefixed := Join(name, tool.name);
        NewMeansUntaken(name, tools, table0, table, registered, k);
        if prefixed in registered {
          NothingNew(name, tools, table0, table, k);
        } else {
          if !tool.pinned {
            drift := Some(tool.name);
            return;
          }
          RowAdded(name, tools, table0, table, registered, k);
          registered := registered + {prefixed};
          table := table + [Proxied(name, tool.name, prefixed)];
        }
      } else {
        NothingNew(name, tools, table0, table, k);
      }
    }
    assert tools[..|tools|] == tools;
  }

  lemma NothingNew(name: string, tools: seq<Tool>, table0: seq<Proxied>, table: seq<Proxied>, k: nat)
    requires k < |tools| && Adds(name, tools, table0, table, k) && !NewTool(name, tools, table0, k)
    requires AcceptedTool(tools[k].name) ==> Row(name, tools[k].name) in table
    ensures Adds(name, tools, table0, table, k + 1)
  {
    OfferedSnoc(name, tools, k);
  }

  lemma RowAdded(name: string, tools: seq<Tool>, table0: seq<Proxied>, table: seq<Proxied>, registered: set<string>, k: nat)
    requires k < |tools| && TableOk(registered, table) && Adds(name, tools, table0, table, k)
    requires AcceptedUpstream(name) && NewTool(name, tools, table0, k) && tools[k].pinned
    requires Join(name, tools[k].name) !in registered
    ensures var row := Row(name, tools[k].name);
      && TableOk(registered + {row.prefixed}, table + [row])
      && Adds(name, tools, table0, table + [row], k + 1)
  {
    var row := Row(name, tools[k].name);
    OfferedSnoc(name, tools, k);
    RowRegistered(table, registered, row);
    Regroup(table0, NewRows(name, tools, table0, k), [row]);
    assert forall p :: p in table + [row] <==> p in table || p == row;
  }

  lemma RowRegistered(table: seq<Proxied>, registered: set<string>, row: Proxied)
    requires TableOk(registered, table) && row.prefixed !in registered
    requires row == Row(row.upstream, row.tool) && AcceptedUpstream(row.upstream) && AcceptedTool(row.tool)
    ensures TableOk(registered + {row.prefixed}, table + [row])
  {
    assert forall p :: p in table + [row] <==> p in table || p == row;
    assert forall i | 0 <= i < |table| :: table[i] in table;
  }

  /** A taken name is taken by the very same tool, so skipping it loses nothing. */
  lemma AlreadyThere(table: seq<Proxied>, name: string, tool: string, registered: set<string>)
    requires Registers(registered, table) && RowsSound(table)
    requires AcceptedUpstream(name) && Join(name, tool) in registered
    ensures Proxied(name, tool, Join(name, tool)) in table
  {
    var p :| p in table && p.prefixed == Join(name, tool);
    JoinInjective(p.upstream, p.tool, name, tool);
  }

  lemma OfferedSnoc(name: string, tools: seq<Tool>, k: nat)
    requires k < |tools|
    ensures forall p :: (OfferedBy(Upstream(name, Listed(tools[..k + 1])), p) <==>
      OfferedBy(Upstream(name, Listed(tools[..k])), p)
      || (AcceptedTool(tools[k].name) && p == Row(name, tools[k].name)))
  {
    assert tools[..k + 1] == tools[..k] + [tools[k]];
  }

  /** The check on the name set finds exactly the tools that are new. */
  lemma NewMeansUntaken(name: string, tools: seq<Tool>, table0: seq<Proxied>, table: seq<Proxied>,
                        registered: set<string>, k: nat)
    requires k < |tools| && AcceptedUpstream(name) && AcceptedTool(tools[k].name)
    requires Registers(registered, table) && RowsSound(table)
    requires forall p :: p in table <==> p in table0 || OfferedBy(Upstream(name, Listed(tools[..k])), p)
    ensures NewTool(name, tools, table0, k) <==> Join(name, tools[k].name) !in registered
    ensures Join(name, tools[k].name) in registered <==> Row(name, tools[k].name) in table
  {
    var row := Row(name, tools[k].name);
    if row.prefixed in registered {
      AlreadyThere(table, name, tools[k].name, registered);
    }
    assert forall i | 0 <= i < k :: tools[..k][i] == tools[i];
  }

  // ---------------------------------------------------------------- the firewall

  ghost predicate NamesAccepted(servers: seq<Upstream>, k: nat)
    requires k <= |servers|
  {
    forall i | 0 <= i < k :: AcceptedUpstream(servers[i].name)
  }

  /** The first listing, over all servers in order, of the tool that row `p` stands for. */
  ghost predicate FirstOffer(servers: seq<Upstream>, i: int, j: int, p: Proxied) {
    && Offers(servers, |servers|, i, j, p)
    && forall i', j' | Offers(servers, |servers|, i', j', p) :: i < i' || (i == i' && j <= j')
  }

  /** The firewall passes the first listing of every tool that one of the first `k` servers
      is the first to list. */
  ghost predicate DriftFree(servers: seq<Upstream>, k: nat)
    requires k <= |servers|
  {
    forall i, j, p | FirstOffer(servers, i, j, p) && i < k :: servers[i].listing.tools[j].pinned
  }

  /** Tool `j` of server `i` is the first that the firewall stops. */
  ghost predicate FirstDrift(servers: seq<Upstream>, i: int, j: int, p: Proxied) {
    && FirstOffer(servers, i, j, p) && !servers[i].listing.tools[j].pinned
    && forall i', j', q | FirstOffer(servers, i', j', q) && (i' < i || (i' == i && j' < j)) ::
         servers[i'].listing.tools[j'].pinned
  }

  lemma OffersBefore(servers: seq<Upstream>, k: nat, p: Proxied)
    requires k <= |servers|
    ensures forall i, j :: Offers(servers, k, i, j, p) <==> Offers(servers, |servers|, i, j, p) && i < k
  {
  }

  /** What is new to the table of the servers before is listed for the first time. */
  lemma NewIsFirst(servers: seq<Upstream>, k: nat, table: seq<Proxied>, j: nat, p: Proxied)
    requires k < |servers| && servers[k].listing.Listed? && j < |servers[k].listing.tools|
    requires forall q :: q in table <==> Offered(servers, k, q)
    ensures FirstOffer(servers, k, j, p) <==>
      NewTool(servers[k].name, servers[k].listing.tools, table, j) && p == Row(servers[k].name, servers[k].listing.tools[j].name)
  {
    var n, tools := |servers|, servers[k].listing.tools;
    OffersBefore(servers, k, p);
    if FirstOffer(servers, k, j, p) {
      assert p == Row(servers[k].name, tools[j].name);
      forall i | 0 <= i < j ensures tools[i].name != tools[j].name {
        assert !Offers(servers, n, k, i, p);
      }
    }
    if NewTool(servers[k].name, tools, table, j) && p == Row(servers[k].name, tools[j].name) {
      assert Offers(servers, n, k, j, p);
    }
  }

  lemma DriftFreeStep(servers: seq<Upstream>, k: nat, table: seq<Proxied>)
    requires k < |servers| && DriftFree(servers, k)
    requires forall q :: q in table <==> Offered(servers, k, q)
    requires servers[k].listing.Listed? ==>
      NewPinned(servers[k].name, servers[k].listing.tools, table, |servers[k].listing.tools|)
    ensures DriftFree(servers, k + 1)
  {
    forall i, j, p | FirstOffer(servers, i, j, p) && i < k + 1 ensures servers[i].listing.tools[j].pinned {
      if i == k {
        NewIsFirst(servers, k, table, j, p);
      }
    }
  }

  lemma DriftIsFirst(servers: seq<Upstream>, k: nat, table: seq<Proxied>, j: nat) returns (p: Proxied)
    requires k < |servers| && DriftFree(servers, k) && servers[k].listing.Listed?
    requires forall q :: q in table <==> Offered(servers, k, q)
    requires var name, tools := servers[k].name, servers[k].listing.tools;
      j < |tools| && NewTool(name, tools, table, j) && !tools[j].pinned && NewPinned(name, tools, table, j)
    ensures FirstDrift(servers, k, j, p) && p == Row(servers[k].name, servers[k].listing.tools[j].name)
  {
    p := Row(servers[k].name, servers[k].listing.tools[j].name);
    NewIsFirst(servers, k, table, j, p);
    forall i', j', q | FirstOffer(servers, i', j', q) && (i' < k || (i' == k && j' < j))
      ensures servers[i'].listing.tools[j'].pinned
    {
      if i' == k {
        NewIsFirst(servers, k, table, j', q);
      }
    }
  }

  /** Behind every row of a table without drift stands a first listing that the firewall passed. */
  lemma {:induction false} RowWasPinned(servers: seq<Upstream>, i: nat, j: nat, p: Proxied)
    requires DriftFree(servers, |servers|) && Offers(servers, |servers|, i, j, p)
    ensures exists i0, j0 :: FirstOffer(servers, i0, j0, p) && servers[i0].listing.tools[j0].pinned
    decreases i, j
  {
    if i', j' :| Offers(servers, |servers|, i', j', p) && (i' < i || (i' == i && j' < j)) {
      RowWasPinned(servers, i', j', p);
    } else {
      assert FirstOffer(servers, i, j, p);
    }
  }

  lemma RowsWerePinned(servers: seq<Upstream>, table: seq<Proxied>)
    requires DriftFree(servers, |servers|) && forall p | p in table :: Offered(servers, |servers|, p)
    ensures forall p | p in table :: exists i, j :: FirstOffer(servers, i, j, p) && servers[i].listing.tools[j].pinned
  {
    forall p | p in table ensures exists i, j :: FirstOffer(servers, i, j, p) && servers[i].listing.tools[j].pinned {
      var i, j :| Offers(servers, |servers|, i, j, p);
      RowWasPinned(servers, i, j, p);
    }
  }

  /** The loader.  It succeeds exactly when every upstream name is accepted and the firewall
      passes the first listing of every accepted tool; then the table has exactly the offered
      rows, each once.  Otherwise it names what stopped it first. */
  method LoadHubTools(servers: seq<Upstream>) returns (r: Result<seq<Proxied>>)
    ensures r.Ok? <==> NamesAccepted(servers, |servers|) && DriftFree(servers, |servers|)
    ensures r.Ok? ==> RowsSound(r.value) && NamesDistinct(r.value)
    ensures r.Ok? ==> forall p :: p in r.value <==> Offered(servers, |servers|, p)
    ensures r.Ok? ==> forall p | p in r.value ::
      exists i, j :: FirstOffer(servers, i, j, p) && servers[i].listing.tools[j].pinned
    ensures r.BadUpstreamName? ==> exists i :: (0 <= i < |servers| && servers[i].name == r.name
      && !AcceptedUpstream(r.name) && NamesAccepted(servers, i) && DriftFree(servers, i))
    ensures r.Drift? ==> exists i, j ::
      FirstDrift(servers, i, j, Row(r.upstream, r.tool)) && NamesAccepted(servers, i + 1)
  {
    var registered: set<string> := {};
    var table: seq<Proxied> := [];
    for k := 0 to |servers|
      invariant Registers(registered, table) && RowsSound(table) && NamesDistinct(table)
      invariant NamesAccepted(servers, k) && DriftFree(servers, k)
      invariant forall p :: p in table <==> Offered(servers, k, p)
    {
      var server := servers[k];
      if !AcceptedUpstream(server.name) {
        return BadUpstreamName(server.name);
      }
      match server.listing {
        case Unreachable =>
          DriftFreeStep(servers, k, table);
          forall p ensures Offered(servers, k + 1, p) <==> Offered(servers, k, p) {
            OfferedStep(servers, k, p);
          }
        case Listed(tools) =>
          var drift, registered', table' := AddTools(server.name, tools, registered, table);
          if drift.Some? {
            ghost var j :| (0 <= j < |tools| && NewTool(server.name, tools, table, j)
              && tools[j].name == drift.value && !tools[j].pinned && NewPinned(server.name, tools, table, j));
            ghost var p := DriftIsFirst(servers, k, table, j);
            return Drift(server.name, drift.value);
          }
          DriftFreeStep(servers, k, table);
          forall p ensures p in table' <==> Offered(servers, k + 1, p) {
            OfferedStep(servers, k, p);
          }
          registered, table := registered', table';
      }
    }
    RowsWerePinned(servers, table);
    r := Ok(table);
  }

  ghost predicate OfferedBy(server: Upstream, p: Proxied) {
    && server.listing.Listed? && server.name == p.upstream && AcceptedTool(p.tool)
    && p.prefixed == Join(p.upstream, p.tool)
    && exists t :: t in server.listing.tools && t.name == p.tool
  }

  lemma OfferedStep(servers: seq<Upstream>, k: nat, p: Proxied)
    requires k < |servers|
    ensures Offered(servers, k + 1, p) <==> (Offered(servers, k, p) || OfferedBy(servers[k], p))
  {
    if Offered(servers, k, p) {
      var i, j :| Offers(servers, k, i, j, p);
      assert Offers(servers, k + 1, i, j, p);
    }
    if Offered(servers, k + 1, p) {
      var i, j :| Offers(servers, k + 1, i, j, p);
      if i < k {
        assert Offers(servers, k, i, j, p);
      } else {
        assert servers[k].listing.tools[j] in servers[k].listing.tools;
      }
    }
    if OfferedBy(servers[k], p) {
      var t :| t in servers[k].listing.tools && t.name == p.tool;
      var j :| 0 <= j < |servers[k].listing.tools| && servers[k].listing.tools[j] == t;
      assert Offers(servers, k + 1, k, j, p);
    }
  }
}
