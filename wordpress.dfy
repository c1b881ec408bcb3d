/**
 * In-memory stand-ins for the parts of the host content platform that the
 * shadow-term synchronizer uses: the post store read by `get_post`, and the
 * term table of one taxonomy behind `get_term_by`, `wp_insert_term`,
 * `wp_update_term` and `wp_delete_term`.
 */
module WordPress {
  import opened Wrappers

  /** A post as `get_post` returns it, reduced to the fields the synchronizer reads. */
  datatype Post = Post(postType: string, postStatus: string, postTitle: string, postName: string)

  /** A row of the term table. */
  datatype Term = Term(name: string, slug: string)

  type TermId = nat

  /** PHP's `empty()` on a string: both "" and "0" are empty. */
  predicate IsEmptyString(s: string)
    ensures IsEmptyString(s) ==> |s| <= 1
    ensures s == "" ==> IsEmptyString(s)
    ensures |s| == 1 ==> (IsEmptyString(s) <==> s[0] == '0')
  {
    s == "" || s == "0"
  }

  /** `get_post( $post_id )`: the post stored under the id, or nothing. */
  function GetPost(posts: map<int, Post>, postId: int): (r: Option<Post>)
    ensures r.Some? <==> postId in posts
    ensures r.Some? ==> r.value == posts[postId]
  {
    if postId in posts then Some(posts[postId]) else None
  }

  /**
   * The least id in [from, bound) of a term called exactly `name`, or None
   * when no term in that range has that name.
   */
  function FirstNamed(terms: map<TermId, Term>, name: string, from: nat, bound: nat): (r: Option<TermId>)
    decreases bound - from
    ensures r.Some? ==> from <= r.value < bound && r.value in terms && terms[r.value].name == name
    ensures forall id :: from <= id < bound && id in terms && terms[id].name == name ==> r.Some? && r.value <= id
  {
    if from >= bound then None
    else if from in terms && terms[from].name == name then Some(from)
    else FirstNamed(terms, name, from + 1, bound)
  }

  /** The term table of one taxonomy: rows keyed by term id, and the id the next insert receives. */
  datatype Table = Table(terms: map<TermId, Term>, nextId: TermId) {

    /** Every stored id was handed out before `nextId`. */
    ghost predicate Valid() {
      forall id :: id in terms ==> id < nextId
    }

    /** `get_term_by( 'name', name, … )`: a term whose name equals `name` exactly, the least id first. */
    function TermByName(name: string): (r: Option<TermId>)
      ensures r.Some? ==> r.value in terms && terms[r.value].name == name
      ensures Valid() ==> forall id :: id in terms && terms[id].name == name ==> r.Some? && r.value <= id
    {
      FirstNamed(terms, name, 0, nextId)
    }

    /** A successful `wp_insert_term`: one new row under a fresh id, every other row kept. */
    function Insert(name: string, slug: string): (r: Table)
      requires Valid()
      ensures r.Valid() && r.nextId == nextId + 1
      ensures nextId !in terms && r.terms.Keys == terms.Keys + {nextId}
      ensures r.terms[nextId] == Term(name, slug)
      ensures forall id :: id in terms ==> r.terms[id] == terms[id]
    {
      Table(terms[nextId := Term(name, slug)], nextId + 1)
    }

    /** `wp_update_term`: sets the name and slug of an existing row; an unknown id changes nothing. */
    function Update(id: TermId, name: string, slug: string): (r: Table)
      ensures Valid() ==> r.Valid()
      ensures r.nextId == nextId && r.terms.Keys == terms.Keys
      ensures id in terms ==> r.terms[id] == Term(name, slug)
      ensures forall j :: j in terms && j != id ==> r.terms[j] == terms[j]
    {
      if id in terms then Table(terms[id := Term(name, slug)], nextId) else this
    }

    /** `wp_delete_term`: removes the row with that id, if any, and keeps every other row. */
    function Delete(id: TermId): (r: Table)
      ensures Valid() ==> r.Valid()
      ensures r.nextId == nextId && r.terms.Keys == terms.Keys - {id}
      ensures forall j :: j in r.terms ==> r.terms[j] == terms[j]
    {
      Table(terms - {id}, nextId)
    }
  }

  /** The host's term store for the Sponsors taxonomy (`newspack_spnsrs_tax`), changed in place by the term API. */
  class TermStore {
    var table: Table

    ghost predicate Valid()
      reads this
    {
      table.Valid()
    }

    /** An empty taxonomy; the host's term ids start at 1. */
    constructor ()
      ensures Valid() && table.terms == map[] && table.nextId == 1
    {
      table := Table(map[], 1);
    }

    /**
     * `wp_insert_term( name, taxonomy, [ 'slug' => slug ] )`. Whether the host
     * accepts the insert or reports a WP_Error is outside this model, so it is
     * passed in as `accepted`.
     */
    method InsertTerm(name: string, slug: string, accepted: bool) returns (r: Option<TermId>)
      requires Valid()
      modifies this
      ensures Valid()
      ensures accepted ==> r == Some(old(table).nextId) && table == old(table).Insert(name, slug)
      ensures !accepted ==> r == None && table == old(table)
    {
      if accepted {
        r := Some(table.nextId);
        table := table.Insert(name, slug);
      } else {
        r := None;
      }
    }

    /** `wp_update_term( id, taxonomy, [ 'name' => name, 'slug' => slug ] )`. */
    method UpdateTerm(id: TermId, name: string, slug: string)
      requires Valid()
      modifies this
      ensures Valid()
      ensures table == old(table).Update(id, name, slug)
    {
      table := table.Update(id, name, slug);
    }

    /** `wp_delete_term( id, taxonomy )`. */
    method DeleteTerm(id: TermId)
      requires Valid()
      modifies this
      ensures Valid()
      ensures table == old(table).Delete(id)
    {
      table := table.Delete(id);
    }
  }
}
