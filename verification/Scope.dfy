/** The group scope every operational read applies: own group, global role, or an ancestor in
    the group closure, in SQL's three-valued logic. */
module Scope {
  import opened Wrappers

  datatype Truth = True | False | Unknown {
    predicate Holds() { True? }
  }

  /** SQL equality of nullable values. */
  function Equal<T(==)>(a: Option<T>, b: Option<T>): Truth {
    if a.None? || b.None? then Unknown else if a.value == b.value then True else False
  }

  function Or(p: Truth, q: Truth): Truth {
    if p.True? || q.True? then True else if p.False? && q.False? then False else Unknown
  }

  function And(p: Truth, q: Truth): Truth {
    if p.False? || q.False? then False else if p.True? && q.True? then True else Unknown
  }

  /** A row of organization_group_closure. */
  datatype Edge = Edge(ancestor: Option<string>, descendant: Option<string>)

  /** The bound parameters $1..$5; each may be NULL. */
  datatype Parameters = Parameters(
    group: Option<string>, role: Option<string>, globalRole: Option<string>,
    hierarchyRole: Option<string>, ancestor: Option<string>)

  predicate Inherits(closure: seq<Edge>, ancestor: Option<string>, group: Option<string>) {
    exists i | 0 <= i < |closure| ::
      And(Equal(closure[i].ancestor, ancestor), Equal(closure[i].descendant, group)).Holds()
  }

  /** (group_id = $1 OR $2 = $3 OR ($4 = 'GROUP_ADMIN' AND EXISTS (...))) for one group_id. */
  function InScope(group: Option<string>, p: Parameters, closure: seq<Edge>, hierarchyLiteral: string): Truth {
    Or(Or(Equal(group, p.group), Equal(p.role, p.globalRole)),
       And(Equal(p.hierarchyRole, Some(hierarchyLiteral)),
           if Inherits(closure, p.ancestor, group) then True else False))
  }


  /** The clause in plain words: the own group, equal roles, or a closure edge from the ancestor to
      the row's group for a hierarchy role. A NULL on either side of an equation never admits. */
  lemma ScopeMeaning(group: Option<string>, p: Parameters, closure: seq<Edge>, hierarchyLiteral: string)
    ensures InScope(group, p, closure, hierarchyLiteral).Holds() <==>
      || (group.Some? && group == p.group)
      || (p.role.Some? && p.role == p.globalRole)
      || (p.hierarchyRole == Some(hierarchyLiteral) && p.ancestor.Some? && group.Some? && Edge(p.ancestor, group) in closure)
  {
    if p.ancestor.Some? && group.Some? && Edge(p.ancestor, group) in closure {
      var i :| 0 <= i < |closure| && closure[i] == Edge(p.ancestor, group);
      assert And(Equal(closure[i].ancestor, p.ancestor), Equal(closure[i].descendant, group)).Holds();
    }
  }
}
