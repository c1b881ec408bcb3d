/**
 * Properties of the synchronizer that relate several hook runs: a repeated
 * save adds nothing, a save establishes the shadow term, a delete after a save
 * leaves none, and a rename orphans the term named after the old title.
 */
module SponsorsProperties {
  import opened Wrappers
  import opened WordPress
  import opened NewspackSponsors

  /** The ids of the terms called exactly `name`. */
  ghost function NamedIds(terms: map<TermId, Term>, name: string): set<TermId> {
    set id | id in terms && terms[id].name == name
  }

  /** The post as it is saved again after an edit of its title and slug. */
  function Renamed(p: Post, title: string, slug: string): Post {
    p.(postTitle := title, postName := slug)
  }

  /**
   * A save adds a term named after the post's title only when no term had
   * that name, and otherwise leaves the set of terms with that name as it was:
   * saving never duplicates a shadow term.
   */
  lemma SaveNeverDuplicates(t: Table, post: Option<Post>, insertAccepted: bool)
    requires t.Valid() && SaveProceeds(post) && !IsEmptyString(post.value.postTitle)
    ensures NamedIds(Saved(t, post, insertAccepted).terms, post.value.postTitle) ==
      if NamedIds(t.terms, post.value.postTitle) == {} && insertAccepted then {t.nextId}
      else NamedIds(t.terms, post.value.postTitle)
  {
    var title := post.value.postTitle;
    var r := Saved(t, post, insertAccepted);
    match GetShadowTerm(t, post)
    case Some(id) =>
      assert id in NamedIds(t.terms, title);
      assert NamedIds(r.terms, title) == NamedIds(t.terms, title) by {
        forall j | j in r.terms
          ensures r.terms[j].name == title <==> t.terms[j].name == title
        {
          if j != id {
            assert t.terms[j].name != title ==> r.terms[j] == t.terms[j];
          }
        }
      }
    case None =>
      assert NamedIds(t.terms, title) == {};
      if insertAccepted {
        assert t.nextId in NamedIds(r.terms, title);
      }
  }

  /**
   * After a save that updates a term or whose insert the host accepts, the
   * post's shadow term exists and carries the post's slug.
   */
  lemma SaveEstablishesShadowTerm(t: Table, post: Option<Post>, insertAccepted: bool)
    requires t.Valid() && SaveProceeds(post) && !IsEmptyString(post.value.postTitle)
    requires GetShadowTerm(t, post).Some? || insertAccepted
    ensures GetShadowTerm(Saved(t, post, insertAccepted), post).Some?
    ensures Saved(t, post, insertAccepted).terms[GetShadowTerm(Saved(t, post, insertAccepted), post).value] ==
      Term(post.value.postTitle, post.value.postName)
  {
  }

  /**
   * Saving the same post twice leaves the table as one save does, when the
   * guards skip the post or the first save leaves a shadow term behind.
   */
  lemma SaveIsIdempotent(t: Table, post: Option<Post>, first: bool, second: bool)
    requires t.Valid() && post.Some?
    requires !SaveProceeds(post) || (!IsEmptyString(post.value.postTitle) && (GetShadowTerm(t, post).Some? || first))
    ensures Saved(Saved(t, post, first), post, second) == Saved(t, post, first)
  {
  }

  /**
   * With at most one term named after a Sponsor's title, deleting the Sponsor
   * after saving it leaves no term with that name.
   */
  lemma DeleteAfterSaveLeavesNoShadowTerm(t: Table, post: Option<Post>, insertAccepted: bool)
    requires t.Valid() && SaveProceeds(post) && !IsEmptyString(post.value.postTitle)
    requires |NamedIds(t.terms, post.value.postTitle)| <= 1
    ensures NamedIds(Deleted(Saved(t, post, insertAccepted), post).terms, post.value.postTitle) == {}
  {
    var title := post.value.postTitle;
    var r := Saved(t, post, insertAccepted);
    SaveNeverDuplicates(t, post, insertAccepted);
    var d := Deleted(r, post);
    if GetShadowTerm(r, post).Some? {
      var id := GetShadowTerm(r, post).value;
      AtMostOneIsSingleton(NamedIds(r.terms, title), id);
      assert NamedIds(d.terms, title) <= NamedIds(r.terms, title) - {id};
    } else {
      assert NamedIds(r.terms, title) == {};
      assert NamedIds(d.terms, title) <= NamedIds(r.terms, title);
    }
  }

  /** A set of at most one element that holds `x` is `{x}`. */
  lemma AtMostOneIsSingleton(s: set<TermId>, x: TermId)
    requires x in s && |s| <= 1
    ensures s == {x}
  {
    assert |s - {x}| == 0;
    assert s - {x} == {};
  }

  /**
   * PHP's `empty()` calls the title "0" empty, so a Sponsor with that title
   * never finds its shadow term and each save the host accepts adds one more.
   */
  lemma ZeroTitleSaveInsertsAgain(t: Table, post: Option<Post>)
    requires t.Valid() && SaveProceeds(post) && post.value.postTitle == "0"
    ensures GetShadowTerm(Saved(t, post, true), post).None?
    ensures NamedIds(Saved(Saved(t, post, true), post, true).terms, "0") ==
      NamedIds(t.terms, "0") + {t.nextId, t.nextId + 1}
  {
  }

  /**
   * Renaming a Sponsor and saving it again leaves the term named after the old
   * title untouched, and deleting the Sponsor then removes only the term named
   * after the new title: the old term is orphaned.
   */
  lemma RenameOrphansOldTerm(t: Table, p: Post, title: string, slug: string, first: bool, second: bool)
    requires t.Valid() && title != p.postTitle
    ensures var before := Saved(t, Some(p), first);
      var after := Deleted(Saved(before, Some(Renamed(p, title, slug)), second), Some(Renamed(p, title, slug)));
      forall id :: id in before.terms && before.terms[id].name == p.postTitle ==>
        id in after.terms && after.terms[id] == before.terms[id]
  {
  }

  /**
   * The rename scenario on an empty taxonomy: create "Acme Corp", rename it
   * to "Acme Corporation" and save, then delete it; the "Acme Corp" term
   * remains as the only term.
   */
  lemma AcmeRenameScenario()
    ensures var acme := Post(NewspackSponsorsCpt, "publish", "Acme Corp", "acme-corp");
      var renamed := Renamed(acme, "Acme Corporation", "acme-corporation");
      var created := Saved(Table(map[], 1), Some(acme), true);
      var resaved := Saved(created, Some(renamed), true);
      var deleted := Deleted(resaved, Some(renamed));
      && created.terms == map[1 := Term("Acme Corp", "acme-corp")]
      && resaved.terms == map[1 := Term("Acme Corp", "acme-corp"), 2 := Term("Acme Corporation", "acme-corporation")]
      && deleted.terms == map[1 := Term("Acme Corp", "acme-corp")]
  {
  }
}
