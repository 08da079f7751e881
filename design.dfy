/** The candidate loop of design_sgRNAs_nn, design_sgRNAs_xgb and
    design_sgRNAs_rf in paq1_soporte.py, with the efficiency predictor
    passed in as a function. The three only differ in that predictor. */
module Design {
  import opened Outcome
  import opened Dna
  import opened Fasta
  import opened Pam
  import opened Efficiency

  /** The PAM the design searches for. */
  const PAM: string := "NGG"

  /** How far the target region is widened on each side of the hit. */
  const FLANK: int := 20

  datatype Strand = Forward | Reverse

  /** One row of the candidate table. */
  datatype Guide = Guide(grna: string, pam: string, gc: real, position: int, strand: Strand, efficiency: real)

  /** Every site lies inside the scanned region. */
  predicate WithinRegion(region: string, sites: seq<Site>) {
    forall k :: 0 <= k < |sites| ==> sites[k].offset <= |region|
  }

  /** The design keeps candidates whose GC content lies in [40, 80]. */
  predicate GcAccepted(gc: real) {
    40.0 <= gc <= 80.0
  }

  /** What one site adds to the rows before it: a site at offset at least w
      gives the w bases before it as a candidate; the candidate is scored
      before the GC filter, so a scorer error ends the design, and it
      becomes a row when its GC content is accepted. */
  function SiteStep(region: string, site: Site, w: nat, strand: Strand,
                    score: string -> Result<real>, rows: seq<Guide>): Result<seq<Guide>>
    requires site.offset <= |region|
  {
    if site.offset < w then Ok(rows)
    else
      var candidate := region[site.offset - w..site.offset];
      var gc := GcPercent(candidate);
      match score(candidate)
      case Err(e) => Err(e)
      case Ok(efficiency) =>
        if GcAccepted(gc) then Ok(rows + [Guide(candidate, site.text, gc, site.offset - w, strand, efficiency)])
        else Ok(rows)
  }

  /** The rows one strand contributes from its first n sites, site by
      site; the first error wins. */
  function RowsUpTo(region: string, sites: seq<Site>, n: nat, w: nat, strand: Strand,
                    score: string -> Result<real>): Result<seq<Guide>>
    requires WithinRegion(region, sites) && n <= |sites|
    decreases n
  {
    if n == 0 then Ok([])
    else
      var prior := RowsUpTo(region, sites, n - 1, w, strand, score);
      if prior.Err? then prior else SiteStep(region, sites[n - 1], w, strand, score, prior.value)
  }

  /** One strand's loop over its PAM sites. */
  method ScanStrand(region: string, sites: seq<Site>, w: nat, strand: Strand,
                    score: string -> Result<real>) returns (r: Result<seq<Guide>>)
    requires WithinRegion(region, sites)
    ensures r == RowsUpTo(region, sites, |sites|, w, strand, score)
  {
    var rows: seq<Guide> := [];
    for i := 0 to |sites|
      invariant RowsUpTo(region, sites, i, w, strand, score) == Ok(rows)
    {
      RowsStep(region, sites, i, w, strand, score, rows);
      var site := sites[i];
      if site.offset >= w {
        var candidate := region[site.offset - w..site.offset];
        var gc := GcPercent(candidate);
        var efficiency := score(candidate);
        if efficiency.Err? {
          RowsErrorSticks(region, sites, i + 1, |sites|, w, strand, score);
          return Err(efficiency.error);
        }
        if 40.0 <= gc <= 80.0 {
          rows := rows + [Guide(candidate, site.text, gc, site.offset - w, strand, efficiency.value)];
        }
      }
    }
    r := Ok(rows);
  }

  /** One more site applies one step to the rows so far. */
  lemma RowsStep(region: string, sites: seq<Site>, i: nat, w: nat, strand: Strand,
                 score: string -> Result<real>, rows: seq<Guide>)
    requires WithinRegion(region, sites) && i < |sites|
    requires RowsUpTo(region, sites, i, w, strand, score) == Ok(rows)
    ensures RowsUpTo(region, sites, i + 1, w, strand, score) == SiteStep(region, sites[i], w, strand, score, rows)
  {
  }

  /** Once one strand's loop has failed, later sites do not change the error. */
  lemma {:induction false} RowsErrorSticks(region: string, sites: seq<Site>, m: nat, n: nat, w: nat, strand: Strand,
                                           score: string -> Result<real>)
    requires WithinRegion(region, sites) && m <= n <= |sites|
    requires RowsUpTo(region, sites, m, w, strand, score).Err?
    ensures RowsUpTo(region, sites, n, w, strand, score) == RowsUpTo(region, sites, m, w, strand, score)
    decreases n
  {
    if m < n {
      RowsErrorSticks(region, sites, m, n - 1, w, strand, score);
    }
  }

  /** The rows of one strand's sequence, over its NGG sites. */
  function StrandOf(s: string, w: nat, strand: Strand, score: string -> Result<real>): Result<seq<Guide>> {
    var sites := FindPamSites(s, PAM);
    RowsUpTo(s, sites, |sites|, w, strand, score)
  }

  /** The whole candidate table for an extracted region: the forward rows,
      then the rows of its reverse complement. A region with a character
      other than A, C, G, T fails in the reverse complement. */
  function DesignFromRegion(region: string, w: nat, score: string -> Result<real>): Result<seq<Guide>> {
    match ReverseComplement(region)
    case Err(e) => Err(e)
    case Ok(rc) =>
      match StrandOf(region, w, Forward, score)
      case Err(e) => Err(e)
      case Ok(plus) =>
        match StrandOf(rc, w, Reverse, score)
        case Err(e) => Err(e)
        case Ok(minus) => Ok(plus + minus)
  }

  /** design_sgRNAs_*: widen the aligned hit [qstart, qend] by FLANK on each
      side, extract it from the genome's FASTA lines, and collect the
      candidates of both strands. */
  method DesignGuides(lines: seq<string>, qstart: int, qend: int, w: nat,
                      score: string -> Result<real>) returns (r: Result<seq<Guide>>)
    ensures r == DesignFromRegion(RangeOf(Sequence(lines), qstart - FLANK, qend + FLANK), w, score)
  {
    var region := ExtractRange(lines, qstart - FLANK, qend + FLANK);
    var comp := ReverseComplement(region);
    if comp.Err? {
      return Err(comp.error);
    }
    var rc := comp.value;
    var reverseSites := FindPamSites(rc, PAM);
    var forwardSites := FindPamSites(region, PAM);
    var plus := ScanStrand(region, forwardSites, w, Forward, score);
    if plus.Err? {
      return Err(plus.error);
    }
    var minus := ScanStrand(rc, reverseSites, w, Reverse, score);
    if minus.Err? {
      return Err(minus.error);
    }
    r := Ok(plus.value + minus.value);
  }

  /** A row for a PAM match at g.position + w: the w bases before the
      match, the match as its PAM, its accepted GC content, its strand,
      and the scorer's value for it. */
  ghost predicate IsRow(region: string, pam: string, w: nat, strand: Strand,
                        score: string -> Result<real>, g: Guide) {
    0 <= g.position && g.position + w + |pam| <= |region|
    && MatchesAt(region, pam, g.position + w)
    && |g.grna| == w
    && g.grna == region[g.position..g.position + w]
    && g.pam == region[g.position + w..g.position + w + |pam|]
    && g.gc == GcPercent(g.grna) && GcAccepted(g.gc)
    && g.strand == strand
    && score(g.grna) == Ok(g.efficiency)
  }

  /** The scorer fails on the candidate of this site. */
  predicate ScoreFails(region: string, site: Site, w: nat, score: string -> Result<real>) {
    w <= site.offset <= |region| && score(region[site.offset - w..site.offset]).Err?
  }

  /** What one site does: fail exactly when its candidate's score fails,
      and otherwise keep the earlier rows and add at most its own row. */
  lemma SiteStepFacts(region: string, site: Site, w: nat, strand: Strand,
                      score: string -> Result<real>, rows: seq<Guide>)
    requires site.offset <= |region|
    ensures var r := SiteStep(region, site, w, strand, score, rows);
            (r.Err? <==> ScoreFails(region, site, w, score))
            && (r.Err? ==> r.error == score(region[site.offset - w..site.offset]).error)
    ensures var r := SiteStep(region, site, w, strand, score, rows);
            r.Ok? ==> |rows| <= |r.value| <= |rows| + 1 && r.value[..|rows|] == rows
    ensures var r := SiteStep(region, site, w, strand, score, rows);
            r.Ok? && w <= site.offset ==>
              var candidate := region[site.offset - w..site.offset];
              (|r.value| == |rows| + 1 <==> GcAccepted(GcPercent(candidate)))
              && (|r.value| == |rows| + 1 ==>
                  r.value[|rows|] == Guide(candidate, site.text, GcPercent(candidate), site.offset - w, strand,
                                           score(candidate).value))
    ensures var r := SiteStep(region, site, w, strand, score, rows);
            r.Ok? && site.offset < w ==> r.value == rows
  {
  }

  /** Every row from the first n sites is a candidate ending right before
      a PAM match, with everything the row records about it. */
  lemma {:induction false} RowsAreCandidates(region: string, pam: string, sites: seq<Site>, n: nat, w: nat,
                                             strand: Strand, score: string -> Result<real>)
    requires WithinRegion(region, sites) && n <= |sites|
    requires forall k :: 0 <= k < |sites| ==> IsSite(region, pam, sites[k])
    requires RowsUpTo(region, sites, n, w, strand, score).Ok?
    ensures var rows := RowsUpTo(region, sites, n, w, strand, score).value;
            forall j :: 0 <= j < |rows| ==> IsRow(region, pam, w, strand, score, rows[j])
    decreases n
  {
    if n > 0 {
      var p := RowsUpTo(region, sites, n - 1, w, strand, score).value;
      RowsAreCandidates(region, pam, sites, n - 1, w, strand, score);
      RowsStep(region, sites, n - 1, w, strand, score, p);
      StepRowIsRow(region, pam, sites[n - 1], w, strand, score, p);
      ExtendRows(region, pam, w, strand, score, p, RowsUpTo(region, sites, n, w, strand, score).value);
    }
  }

  /** A step keeps the rows it is given and adds at most one, a candidate. */
  lemma StepRowIsRow(region: string, pam: string, site: Site, w: nat, strand: Strand,
                     score: string -> Result<real>, p: seq<Guide>)
    requires IsSite(region, pam, site) && SiteStep(region, site, w, strand, score, p).Ok?
    ensures var rows := SiteStep(region, site, w, strand, score, p).value;
            |p| <= |rows| <= |p| + 1 && rows[..|p|] == p
            && (|rows| > |p| ==> IsRow(region, pam, w, strand, score, rows[|p|]))
  {
    SiteStepFacts(region, site, w, strand, score, p);
    if |SiteStep(region, site, w, strand, score, p).value| > |p| {
      NewRowIsRow(region, pam, site, w, strand, score);
    }
  }

  /** Rows that keep a table of candidates and add at most one candidate
      are all candidates. */
  lemma ExtendRows(region: string, pam: string, w: nat, strand: Strand, score: string -> Result<real>,
                   p: seq<Guide>, rows: seq<Guide>)
    requires |p| <= |rows| <= |p| + 1 && rows[..|p|] == p
    requires forall j :: 0 <= j < |p| ==> IsRow(region, pam, w, strand, score, p[j])
    requires |rows| > |p| ==> IsRow(region, pam, w, strand, score, rows[|p|])
    ensures forall j :: 0 <= j < |rows| ==> IsRow(region, pam, w, strand, score, rows[j])
  {
    forall j | 0 <= j < |rows|
      ensures IsRow(region, pam, w, strand, score, rows[j])
    {
      if j < |p| {
        assert rows[j] == rows[..|p|][j] == p[j];
      }
    }
  }

  /** Every row from the first n sites ends right before one of them. */
  lemma {:induction false} RowsFromSites(region: string, sites: seq<Site>, n: nat, w: nat,
                                         strand: Strand, score: string -> Result<real>)
    requires WithinRegion(region, sites) && n <= |sites|
    requires RowsUpTo(region, sites, n, w, strand, score).Ok?
    ensures var rows := RowsUpTo(region, sites, n, w, strand, score).value;
            forall j :: 0 <= j < |rows| ==> EndsAtSite(sites, n, w, rows[j])
    decreases n
  {
    if n > 0 {
      var p := RowsUpTo(region, sites, n - 1, w, strand, score).value;
      RowsFromSites(region, sites, n - 1, w, strand, score);
      RowsStep(region, sites, n - 1, w, strand, score, p);
      StepPositions(region, sites[n - 1], w, strand, score, p);
      ExtendFromSites(sites, n, w, p, RowsUpTo(region, sites, n, w, strand, score).value);
    }
  }

  /** Rows that keep rows from the first n - 1 sites and add at most one
      row, from site n - 1, are rows from the first n sites. */
  lemma ExtendFromSites(sites: seq<Site>, n: nat, w: nat, p: seq<Guide>, rows: seq<Guide>)
    requires 0 < n <= |sites|
    requires |p| <= |rows| <= |p| + 1 && rows[..|p|] == p
    requires forall j :: 0 <= j < |p| ==> EndsAtSite(sites, n - 1, w, p[j])
    requires |rows| > |p| ==> rows[|p|].position + w == sites[n - 1].offset
    ensures forall j :: 0 <= j < |rows| ==> EndsAtSite(sites, n, w, rows[j])
  {
    forall j | 0 <= j < |rows|
      ensures EndsAtSite(sites, n, w, rows[j])
    {
      if j < |p| {
        assert rows[j] == rows[..|p|][j] == p[j];
        var k :| 0 <= k < n - 1 && sites[k].offset == p[j].position + w;
      } else {
        assert sites[n - 1].offset == rows[j].position + w;
      }
    }
  }

  /** Guide g ends right before one of the first n sites. */
  ghost predicate EndsAtSite(sites: seq<Site>, n: nat, w: nat, g: Guide)
    requires n <= |sites|
  {
    exists k :: 0 <= k < n && sites[k].offset == g.position + w
  }

  /** A step keeps the rows it is given, and the row it adds, if any, ends
      right before the site. */
  lemma StepPositions(region: string, site: Site, w: nat, strand: Strand,
                      score: string -> Result<real>, p: seq<Guide>)
    requires site.offset <= |region| && SiteStep(region, site, w, strand, score, p).Ok?
    ensures var rows := SiteStep(region, site, w, strand, score, p).value;
            |p| <= |rows| <= |p| + 1 && rows[..|p|] == p
            && (|rows| > |p| ==> rows[|p|].position + w == site.offset)
  {
    SiteStepFacts(region, site, w, strand, score, p);
  }

  /** The row a site adds is a candidate ending right before it. */
  lemma NewRowIsRow(region: string, pam: string, site: Site, w: nat, strand: Strand, score: string -> Result<real>)
    requires IsSite(region, pam, site) && w <= site.offset
    requires var candidate := region[site.offset - w..site.offset];
             score(candidate).Ok? && GcAccepted(GcPercent(candidate))
    ensures var candidate := region[site.offset - w..site.offset];
            IsRow(region, pam, w, strand, score,
                  Guide(candidate, site.text, GcPercent(candidate), site.offset - w, strand, score(candidate).value))
  {
  }

  /** Every one of the first n sites at offset at least w whose candidate
      has accepted GC content gives a row. */
  lemma {:induction false} RowsComplete(region: string, sites: seq<Site>, n: nat, w: nat, strand: Strand,
                                        score: string -> Result<real>, k: nat)
    requires WithinRegion(region, sites) && k < n <= |sites| && w <= sites[k].offset
    requires GcAccepted(GcPercent(region[sites[k].offset - w..sites[k].offset]))
    requires RowsUpTo(region, sites, n, w, strand, score).Ok?
    ensures var rows := RowsUpTo(region, sites, n, w, strand, score).value;
            exists j :: 0 <= j < |rows| && rows[j].strand == strand && rows[j].position == sites[k].offset - w
                        && rows[j].grna == region[sites[k].offset - w..sites[k].offset]
    decreases n
  {
    var p := RowsUpTo(region, sites, n - 1, w, strand, score).value;
    RowsStep(region, sites, n - 1, w, strand, score, p);
    SiteStepFacts(region, sites[n - 1], w, strand, score, p);
    var rows := RowsUpTo(region, sites, n, w, strand, score).value;
    if k < n - 1 {
      RowsComplete(region, sites, n - 1, w, strand, score, k);
      var j :| 0 <= j < |p| && p[j].strand == strand && p[j].position == sites[k].offset - w
               && p[j].grna == region[sites[k].offset - w..sites[k].offset];
      assert rows[j] == rows[..|p|][j] == p[j];
    } else {
      assert rows[|p|].position == sites[k].offset - w;
    }
  }

  /** The first n sites fail exactly when the scorer fails on the candidate
      of one of them at offset at least w. */
  lemma {:induction false} StrandFails(region: string, sites: seq<Site>, n: nat, w: nat, strand: Strand,
                                       score: string -> Result<real>)
    requires WithinRegion(region, sites) && n <= |sites|
    ensures RowsUpTo(region, sites, n, w, strand, score).Err?
            <==> exists k :: 0 <= k < n && ScoreFails(region, sites[k], w, score)
    decreases n
  {
    if n > 0 {
      StrandFails(region, sites, n - 1, w, strand, score);
      var p := RowsUpTo(region, sites, n - 1, w, strand, score);
      if p.Ok? {
        SiteStepFacts(region, sites[n - 1], w, strand, score, p.value);
      }
    }
  }

  /** The error of a failed strand is the scorer's error on the first site
      whose candidate fails; k is that site. */
  lemma {:induction false} StrandFirstError(region: string, sites: seq<Site>, n: nat, w: nat, strand: Strand,
                                            score: string -> Result<real>) returns (k: nat)
    requires WithinRegion(region, sites) && n <= |sites|
    requires RowsUpTo(region, sites, n, w, strand, score).Err?
    ensures k < n && ScoreFails(region, sites[k], w, score)
    ensures RowsUpTo(region, sites, n, w, strand, score).error == score(region[sites[k].offset - w..sites[k].offset]).error
    ensures forall m :: 0 <= m < k ==> !ScoreFails(region, sites[m], w, score)
    decreases n
  {
    var p := RowsUpTo(region, sites, n - 1, w, strand, score);
    if p.Err? {
      k := StrandFirstError(region, sites, n - 1, w, strand, score);
    } else {
      StrandFails(region, sites, n - 1, w, strand, score);
      SiteStepFacts(region, sites[n - 1], w, strand, score, p.value);
      k := n - 1;
    }
  }

  /** Rows come in site order: with increasing site offsets, the rows'
      positions strictly increase. */
  lemma {:induction false} RowsOrdered(region: string, sites: seq<Site>, n: nat, w: nat, strand: Strand,
                                       score: string -> Result<real>)
    requires WithinRegion(region, sites) && n <= |sites|
    requires forall k, l :: 0 <= k < l < |sites| ==> sites[k].offset < sites[l].offset
    requires RowsUpTo(region, sites, n, w, strand, score).Ok?
    ensures var rows := RowsUpTo(region, sites, n, w, strand, score).value;
            (n > 0 ==> forall j :: 0 <= j < |rows| ==> rows[j].position + w <= sites[n - 1].offset)
            && forall i, j :: 0 <= i < j < |rows| ==> rows[i].position < rows[j].position
    decreases n
  {
    if n > 0 {
      var p := RowsUpTo(region, sites, n - 1, w, strand, score).value;
      RowsOrdered(region, sites, n - 1, w, strand, score);
      RowsStep(region, sites, n - 1, w, strand, score, p);
      StepPositions(region, sites[n - 1], w, strand, score, p);
      if n > 1 {
        assert sites[n - 2].offset < sites[n - 1].offset;
      }
      ExtendOrdered(w, sites[n - 1].offset, p, RowsUpTo(region, sites, n, w, strand, score).value);
    }
  }

  /** Rows in increasing position that end before `last`, followed by at
      most one row ending at `last`, are in increasing position. */
  lemma ExtendOrdered(w: nat, last: int, p: seq<Guide>, rows: seq<Guide>)
    requires |p| <= |rows| <= |p| + 1 && rows[..|p|] == p
    requires forall j :: 0 <= j < |p| ==> p[j].position + w < last
    requires forall i, j :: 0 <= i < j < |p| ==> p[i].position < p[j].position
    requires |rows| > |p| ==> rows[|p|].position + w == last
    ensures forall j :: 0 <= j < |rows| ==> rows[j].position + w <= last
    ensures forall i, j :: 0 <= i < j < |rows| ==> rows[i].position < rows[j].position
  {
    assert forall j :: 0 <= j < |p| ==> rows[j] == rows[..|p|][j] == p[j];
  }

  /** The scanned PAM sites lie inside the region and come in increasing
      order. */
  lemma PamSitesOrdered(region: string)
    ensures var sites := FindPamSites(region, PAM);
            WithinRegion(region, sites)
            && (forall k :: 0 <= k < |sites| ==> IsSite(region, PAM, sites[k]))
            && forall k, l :: 0 <= k < l < |sites| ==> sites[k].offset < sites[l].offset
  {
  }

  /** The rows of one strand are its candidates, each ending right before
      one of its NGG sites. */
  lemma StrandOfRows(s: string, w: nat, strand: Strand, score: string -> Result<real>)
    requires StrandOf(s, w, strand, score).Ok?
    ensures var rows := StrandOf(s, w, strand, score).value;
            forall j :: 0 <= j < |rows| ==> IsRow(s, PAM, w, strand, score, rows[j])
    ensures var rows := StrandOf(s, w, strand, score).value;
            var sites := FindPamSites(s, PAM);
            forall j :: 0 <= j < |rows| ==> exists k :: 0 <= k < |sites| && sites[k].offset == rows[j].position + w
  {
    var sites := FindPamSites(s, PAM);
    PamSitesOrdered(s);
    RowsAreCandidates(s, PAM, sites, |sites|, w, strand, score);
    RowsFromSites(s, sites, |sites|, w, strand, score);
  }

  /** The rows of one strand carry that strand, in increasing position. */
  lemma StrandOfOrder(s: string, w: nat, strand: Strand, score: string -> Result<real>)
    requires StrandOf(s, w, strand, score).Ok?
    ensures var rows := StrandOf(s, w, strand, score).value;
            (forall j :: 0 <= j < |rows| ==> rows[j].strand == strand)
            && forall i, j :: 0 <= i < j < |rows| ==> rows[i].position < rows[j].position
  {
    var sites := FindPamSites(s, PAM);
    StrandOfRows(s, w, strand, score);
    PamSitesOrdered(s);
    RowsOrdered(s, sites, |sites|, w, strand, score);
  }

  /** Every site of one strand at offset at least w whose candidate has
      accepted GC content gives a row of that strand. */
  lemma StrandOfComplete(s: string, w: nat, strand: Strand, score: string -> Result<real>, k: nat)
    requires StrandOf(s, w, strand, score).Ok?
    requires var sites := FindPamSites(s, PAM);
             k < |sites| && w <= sites[k].offset && GcAccepted(GcPercent(s[sites[k].offset - w..sites[k].offset]))
    ensures var sites := FindPamSites(s, PAM);
            var rows := StrandOf(s, w, strand, score).value;
            exists j :: 0 <= j < |rows| && rows[j].strand == strand && rows[j].position == sites[k].offset - w
                        && rows[j].grna == s[sites[k].offset - w..sites[k].offset]
  {
    var sites := FindPamSites(s, PAM);
    PamSitesOrdered(s);
    RowsComplete(s, sites, |sites|, w, strand, score, k);
  }

  /** The scorer fails on the candidate of one of the NGG sites of s. */
  predicate SomeScoreFails(s: string, w: nat, score: string -> Result<real>) {
    var sites := FindPamSites(s, PAM);
    exists k :: 0 <= k < |sites| && ScoreFails(s, sites[k], w, score)
  }

  /** One strand fails exactly when the scorer fails on one of its candidates. */
  lemma StrandOfFails(s: string, w: nat, strand: Strand, score: string -> Result<real>)
    ensures StrandOf(s, w, strand, score).Err? <==> SomeScoreFails(s, w, score)
  {
    var sites := FindPamSites(s, PAM);
    PamSitesOrdered(s);
    StrandFails(s, sites, |sites|, w, strand, score);
  }

  /** A successful design read a DNA region, and is the forward strand's
      rows followed by the reverse strand's. */
  lemma DesignSplits(region: string, w: nat, score: string -> Result<real>)
    requires DesignFromRegion(region, w, score).Ok?
    ensures IsDna(region)
    ensures var rc := ReverseComplement(region).value;
            StrandOf(region, w, Forward, score).Ok? && StrandOf(rc, w, Reverse, score).Ok?
            && DesignFromRegion(region, w, score).value
               == StrandOf(region, w, Forward, score).value + StrandOf(rc, w, Reverse, score).value
  {
  }

  /** Each row of a successful design is a candidate of its strand, read
      from the region for a forward row and from its reverse complement
      for a reverse row. */
  lemma DesignRows(region: string, w: nat, score: string -> Result<real>)
    requires DesignFromRegion(region, w, score).Ok?
    ensures IsDna(region)
    ensures var rows := DesignFromRegion(region, w, score).value;
            var rc := ReverseComplement(region).value;
            (forall j :: 0 <= j < |rows| && rows[j].strand == Forward ==> IsRow(region, PAM, w, Forward, score, rows[j]))
            && (forall j :: 0 <= j < |rows| && rows[j].strand == Reverse ==> IsRow(rc, PAM, w, Reverse, score, rows[j]))
  {
    DesignSplits(region, w, score);
    var rc := ReverseComplement(region).value;
    StrandOfRows(region, w, Forward, score);
    StrandOfRows(rc, w, Reverse, score);
    var plus := StrandOf(region, w, Forward, score).value;
    var minus := StrandOf(rc, w, Reverse, score).value;
    var rows := DesignFromRegion(region, w, score).value;
    forall j | 0 <= j < |rows|
      ensures rows[j].strand == Forward ==> IsRow(region, PAM, w, Forward, score, rows[j])
      ensures rows[j].strand == Reverse ==> IsRow(rc, PAM, w, Reverse, score, rows[j])
    {
      if j < |plus| {
        assert rows[j] == plus[j];
        assert IsRow(region, PAM, w, Forward, score, plus[j]);
      } else {
        assert rows[j] == minus[j - |plus|];
        assert IsRow(rc, PAM, w, Reverse, score, minus[j - |plus|]);
      }
    }
  }

  /** In a successful design the forward rows come first, then the
      reverse rows, and within a strand positions strictly increase. */
  lemma DesignOrder(region: string, w: nat, score: string -> Result<real>)
    requires DesignFromRegion(region, w, score).Ok?
    ensures var rows := DesignFromRegion(region, w, score).value;
            (forall i, j :: 0 <= i < j < |rows| && rows[i].strand == Reverse ==> rows[j].strand == Reverse)
            && (forall i, j :: 0 <= i < j < |rows| && rows[i].strand == rows[j].strand ==> rows[i].position < rows[j].position)
  {
    DesignSplits(region, w, score);
    var rc := ReverseComplement(region).value;
    StrandOfOrder(region, w, Forward, score);
    StrandOfOrder(rc, w, Reverse, score);
    ConcatOrder(StrandOf(region, w, Forward, score).value, StrandOf(rc, w, Reverse, score).value);
  }

  /** A forward table followed by a reverse table, each in increasing
      position, keeps both orders. */
  lemma ConcatOrder(plus: seq<Guide>, minus: seq<Guide>)
    requires forall j :: 0 <= j < |plus| ==> plus[j].strand == Forward
    requires forall j :: 0 <= j < |minus| ==> minus[j].strand == Reverse
    requires forall i, j :: 0 <= i < j < |plus| ==> plus[i].position < plus[j].position
    requires forall i, j :: 0 <= i < j < |minus| ==> minus[i].position < minus[j].position
    ensures var rows := plus + minus;
            (forall i, j :: 0 <= i < j < |rows| && rows[i].strand == Reverse ==> rows[j].strand == Reverse)
            && (forall i, j :: 0 <= i < j < |rows| && rows[i].strand == rows[j].strand ==> rows[i].position < rows[j].position)
  {
    var rows := plus + minus;
    assert forall j :: 0 <= j < |rows| ==> rows[j] == if j < |plus| then plus[j] else minus[j - |plus|];
  }

  /** The design fails exactly when the region holds a character other
      than A, C, G, T, or the scorer fails on a candidate of either strand. */
  lemma DesignFails(region: string, w: nat, score: string -> Result<real>)
    ensures DesignFromRegion(region, w, score).Err?
            <==> !IsDna(region)
                 || SomeScoreFails(region, w, score)
                 || SomeScoreFails(ReverseComplement(region).value, w, score)
  {
    if IsDna(region) {
      DnaDesignFails(region, ReverseComplement(region).value, w, score);
    }
  }

  /** Over a DNA region, the design fails exactly when one of the two
      strands does. */
  lemma DnaDesignFails(region: string, rc: string, w: nat, score: string -> Result<real>)
    requires ReverseComplement(region) == Ok(rc)
    ensures DesignFromRegion(region, w, score).Err?
            <==> StrandOf(region, w, Forward, score).Err? || StrandOf(rc, w, Reverse, score).Err?
    ensures StrandOf(region, w, Forward, score).Err? <==> SomeScoreFails(region, w, score)
    ensures StrandOf(rc, w, Reverse, score).Err? <==> SomeScoreFails(rc, w, score)
  {
    StrandOfFails(region, w, Forward, score);
    StrandOfFails(rc, w, Reverse, score);
  }

  /** Every forward PAM site at offset at least w whose candidate has
      accepted GC content yields a forward row at offset - w. */
  lemma DesignCompleteForward(region: string, w: nat, score: string -> Result<real>, k: nat)
    requires DesignFromRegion(region, w, score).Ok?
    requires var sites := FindPamSites(region, PAM);
             k < |sites| && w <= sites[k].offset && GcAccepted(GcPercent(region[sites[k].offset - w..sites[k].offset]))
    ensures var sites := FindPamSites(region, PAM);
            var rows := DesignFromRegion(region, w, score).value;
            exists j :: 0 <= j < |rows| && rows[j].strand == Forward && rows[j].position == sites[k].offset - w
                        && rows[j].grna == region[sites[k].offset - w..sites[k].offset]
  {
    var rc := ReverseComplement(region).value;
    var rows := DesignFromRegion(region, w, score).value;
    var plus, minus := StrandOf(region, w, Forward, score).value, StrandOf(rc, w, Reverse, score).value;
    assert rows == plus + minus by { DesignSplits(region, w, score); }
    var o := FindPamSites(region, PAM)[k].offset;
    StrandOfComplete(region, w, Forward, score, k);
    ConcatFindsLeft(plus, minus, rows, Forward, o - w, region[o - w..o]);
  }

  /** Every PAM site of the reverse complement at offset at least w whose
      candidate has accepted GC content yields a reverse row at offset - w. */
  lemma DesignCompleteReverse(region: string, rc: string, w: nat, score: string -> Result<real>, k: nat)
    requires ReverseComplement(region) == Ok(rc)
    requires DesignFromRegion(region, w, score).Ok?
    requires var sites := FindPamSites(rc, PAM);
             k < |sites| && w <= sites[k].offset && GcAccepted(GcPercent(rc[sites[k].offset - w..sites[k].offset]))
    ensures var sites := FindPamSites(rc, PAM);
            var rows := DesignFromRegion(region, w, score).value;
            exists j :: 0 <= j < |rows| && rows[j].strand == Reverse && rows[j].position == sites[k].offset - w
                        && rows[j].grna == rc[sites[k].offset - w..sites[k].offset]
  {
    var rows := DesignFromRegion(region, w, score).value;
    var plus, minus := StrandOf(region, w, Forward, score).value, StrandOf(rc, w, Reverse, score).value;
    assert rows == plus + minus by { DesignSplits(region, w, score); }
    var o := FindPamSites(rc, PAM)[k].offset;
    StrandOfComplete(rc, w, Reverse, score, k);
    ConcatFindsRight(plus, minus, rows, Reverse, o - w, rc[o - w..o]);
  }

  /** A row of the first table is a row of the concatenation. */
  lemma ConcatFindsLeft(plus: seq<Guide>, minus: seq<Guide>, rows: seq<Guide>, strand: Strand, position: int, grna: string)
    requires rows == plus + minus
    requires exists j :: 0 <= j < |plus| && plus[j].strand == strand && plus[j].position == position && plus[j].grna == grna
    ensures exists j :: 0 <= j < |rows| && rows[j].strand == strand && rows[j].position == position && rows[j].grna == grna
  {
    var j :| 0 <= j < |plus| && plus[j].strand == strand && plus[j].position == position && plus[j].grna == grna;
    assert rows[j] == plus[j];
  }

  /** A row of the second table is a row of the concatenation. */
  lemma ConcatFindsRight(plus: seq<Guide>, minus: seq<Guide>, rows: seq<Guide>, strand: Strand, position: int, grna: string)
    requires rows == plus + minus
    requires exists j :: 0 <= j < |minus| && minus[j].strand == strand && minus[j].position == position && minus[j].grna == grna
    ensures exists j :: 0 <= j < |rows| && rows[j].strand == strand && rows[j].position == position && rows[j].grna == grna
  {
    var j :| 0 <= j < |minus| && minus[j].strand == strand && minus[j].position == position && minus[j].grna == grna;
    assert rows[|plus| + j] == minus[j];
  }

  /** The candidates of a DNA sequence are DNA. */
  lemma WindowIsDna(s: string, lo: nat, hi: nat)
    requires IsDna(s) && lo <= hi <= |s|
    ensures IsDna(s[lo..hi])
  {
    assert forall i :: 0 <= i < hi - lo ==> s[lo..hi][i] == s[lo + i];
  }

  /** gc_content reads a candidate of a DNA region as text, not as a file
      name, so its GC content is GcPercent of the candidate. */
  lemma CandidateIsText(region: string, lo: nat, hi: nat)
    requires IsDna(region) && lo <= hi <= |region|
    ensures !IsFileName(region[lo..hi])
  {
    WindowIsDna(region, lo, hi);
    DnaIsNoFileName(region[lo..hi]);
  }

  /** With 20-base windows and a model-backed scorer, no candidate can fail
      to score: a design over a DNA region always succeeds, so its only
      failure is a non-base character in the region. */
  lemma ModelDesignFailsOnlyOnBadBase(region: string, predict: seq<int> -> real)
    ensures DesignFromRegion(region, GUIDE_LENGTH, s => ModelScore(s, predict)).Err? <==> !IsDna(region)
  {
    var score := (s: string) => ModelScore(s, predict);
    DesignFails(region, GUIDE_LENGTH, score);
    forall s: string, site: Site | IsDna(s) && GUIDE_LENGTH <= site.offset <= |s|
      ensures !ScoreFails(s, site, GUIDE_LENGTH, score)
    {
      WindowIsDna(s, site.offset - GUIDE_LENGTH, site.offset);
    }
  }

  /** A scorer that raises ValueError for every guide whose length is not 20. */
  ghost predicate ChecksLength(score: string -> Result<real>) {
    forall c: string :: |c| != GUIDE_LENGTH ==> score(c) == Err(WrongLength(|c|))
  }

  /** Some NGG site of s lies at offset at least w, so it has a candidate. */
  predicate HasCandidate(s: string, w: nat) {
    var sites := FindPamSites(s, PAM);
    exists k :: 0 <= k < |sites| && w <= sites[k].offset
  }

  /** Over a region made only of A, C, G and T, and with a scorer that
      checks the guide length, as every scorer of the pipeline does, a
      window size other than 20 makes the design fail as soon as either
      strand has a site at offset at least w: the length check runs before
      the GC filter. A region with any other character fails earlier, in
      the reverse complement. */
  lemma DesignNeedsGuideLength(region: string, w: nat, score: string -> Result<real>)
    requires IsDna(region) && w != GUIDE_LENGTH && ChecksLength(score)
    requires HasCandidate(region, w) || HasCandidate(ReverseComplement(region).value, w)
    ensures DesignFromRegion(region, w, score) == Err(WrongLength(w))
  {
    var rc := ReverseComplement(region).value;
    if HasCandidate(region, w) {
      StrandNeedsGuideLength(region, w, Forward, score);
    } else {
      NoCandidateNoFailure(region, w, Forward, score);
      StrandNeedsGuideLength(rc, w, Reverse, score);
    }
  }

  /** A strand with no site at offset at least w never calls the scorer,
      so it cannot fail. */
  lemma NoCandidateNoFailure(s: string, w: nat, strand: Strand, score: string -> Result<real>)
    requires !HasCandidate(s, w)
    ensures StrandOf(s, w, strand, score).Ok?
  {
    StrandOfFails(s, w, strand, score);
  }

  /** A strand with a site at offset at least w fails with the length
      error when w is not 20. */
  lemma StrandNeedsGuideLength(s: string, w: nat, strand: Strand, score: string -> Result<real>)
    requires w != GUIDE_LENGTH && ChecksLength(score) && HasCandidate(s, w)
    ensures StrandOf(s, w, strand, score) == Err(WrongLength(w))
  {
    var sites := FindPamSites(s, PAM);
    PamSitesOrdered(s);
    var k :| 0 <= k < |sites| && w <= sites[k].offset;
    assert ScoreFails(s, sites[k], w, score);
    StrandFails(s, sites, |sites|, w, strand, score);
    var m := StrandFirstError(s, sites, |sites|, w, strand, score);
    LengthErrorWins(RowsUpTo(s, sites, |sites|, w, strand, score), s[sites[m].offset - w..sites[m].offset], w, score);
  }

  /** A failure that carries the scorer's error on a w-base candidate,
      w other than 20, is the length error. */
  lemma LengthErrorWins(rows: Result<seq<Guide>>, candidate: string, w: nat, score: string -> Result<real>)
    requires w != GUIDE_LENGTH && |candidate| == w
    requires ChecksLength(score)
    requires rows.Err? && rows.error == score(candidate).error
    ensures rows == Err(WrongLength(w))
  {
  }

  /** The model-backed scorers check the guide length. */
  lemma ModelChecksLength(predict: seq<int> -> real)
    ensures ChecksLength(s => ModelScore(s, predict))
  {
  }

  /** So, over a region made only of A, C, G and T, a design with a
      model-backed scorer fails with ValueError for any window size other
      than 20 once either strand has a candidate. */
  lemma ModelDesignNeedsGuideLength(region: string, w: nat, predict: seq<int> -> real)
    requires IsDna(region) && w != GUIDE_LENGTH
    requires HasCandidate(region, w) || HasCandidate(ReverseComplement(region).value, w)
    ensures DesignFromRegion(region, w, s => ModelScore(s, predict)) == Err(WrongLength(w))
  {
    ModelChecksLength(predict);
    DesignNeedsGuideLength(region, w, s => ModelScore(s, predict));
  }
}
