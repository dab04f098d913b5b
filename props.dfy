/**
 * `PerformanceDetailSerializer.update`: inside one transaction the
 * performance's own fields are saved, its props are cleared, and every
 * requested name is looked up with `Prop.objects.get_or_create(name=...)`;
 * the prop found or created is attached to the performance. `Prop.name` is
 * not unique, so a lookup fails (`MultipleObjectsReturned`) when two props
 * already share the name, and the whole update is rolled back.
 */
module Props {
  import opened Wrappers
  import opened Schema
  import opened Lists

  datatype UpdateError =
    | PerformanceNotFound(performance: Id)
    /** The request carried no `props` (`validated_data.pop("props")` fails). */
    | PropsMissing
    | MultiplePropsNamed(name: string)

  /** `Prop.objects.filter(name=name)`: the keys of the props with exactly this name. */
  function PropsNamed(props: map<Id, Prop>, name: string): set<Id> {
    set k | k in props && props[k].name == name
  }

  /** The largest key below `bound` of a prop with this name, if there is one. */
  function FindProp(props: map<Id, Prop>, name: string, bound: Id): (r: Option<Id>)
    ensures r.Some? ==> r.value < bound && r.value in PropsNamed(props, name)
    ensures r.None? ==> forall k :: k in PropsNamed(props, name) ==> k >= bound
    decreases bound
  {
    if bound == 0 then None
    else if bound - 1 in props && props[bound - 1].name == name then Some(bound - 1)
    else FindProp(props, name, bound - 1)
  }

  lemma SingletonOf(s: set<Id>, k: Id)
    requires k in s && |s| <= 1
    ensures s == {k}
  {
    var rest := s - {k};
    assert s == rest + {k};
  }

  /** What `get_or_create` hands back: the props table afterwards, the prop, and the next prop key. */
  datatype Got = Got(props: map<Id, Prop>, prop: Id, next: Id)

  /**
   * `get_or_create` leaves exactly one prop with the name, the one it hands
   * back; it keeps every existing prop, touches no other name, adds at most
   * one row, and adds none when the name already exists.
   */
  ghost predicate Fetched(props: map<Id, Prop>, next: Id, name: string, got: Got) {
    && KeysBelow(got.props, got.next)
    && next <= got.next
    && (forall k :: k in props ==> k in got.props && got.props[k] == props[k])
    && |got.props| <= |props| + 1
    && PropsNamed(got.props, name) == {got.prop}
    && (forall m :: m != name ==> PropsNamed(got.props, m) == PropsNamed(props, m))
    && (PropsNamed(props, name) != {} ==> got.props == props && got.next == next)
  }

  /** `Prop.objects.get_or_create(name=name)`, with new rows keyed from `next`. */
  function GetOrCreateProp(props: map<Id, Prop>, next: Id, name: string): (r: Result<Got, UpdateError>)
    requires KeysBelow(props, next)
    ensures r.Failure? <==> |PropsNamed(props, name)| >= 2
    ensures r.Failure? ==> r.error == MultiplePropsNamed(name)
    ensures r.Success? ==> Fetched(props, next, name, r.value)
  {
    var named := PropsNamed(props, name);
    if |named| >= 2 then Failure(MultiplePropsNamed(name))
    else
      match FindProp(props, name, next)
      case Some(k) =>
        SingletonOf(named, k);
        Success(Got(props, k, next))
      case None =>
        var after := props[next := Prop(name)];
        assert named == {};
        assert PropsNamed(after, name) == {next};
        assert forall m :: m != name ==> PropsNamed(after, m) == PropsNamed(props, m);
        Success(Got(after, next, next + 1))
  }

  /** The props table, next prop key and prop rows after attaching some names. */
  datatype Attached = Attached(props: map<Id, Prop>, next: Id, links: set<PropLink>)

  /** The loop of `update`: get-or-create each name in turn and attach the prop to the performance. */
  function AttachAll(props: map<Id, Prop>, next: Id, links: set<PropLink>, performance: Id, names: seq<string>)
    : (r: Result<Attached, UpdateError>)
    requires KeysBelow(props, next)
    ensures r.Success? ==> KeysBelow(r.value.props, r.value.next) && next <= r.value.next
    decreases |names|
  {
    if names == [] then Success(Attached(props, next, links))
    else
      var n := |names| - 1;
      match AttachAll(props, next, links, performance, names[..n])
      case Failure(e) => Failure(e)
      case Success(a) =>
        match GetOrCreateProp(a.props, a.next, names[n])
        case Failure(e) => Failure(e)
        case Success(got) => Success(Attached(got.props, got.next, a.links + {PropLink(got.prop, performance)}))
  }

  /**
   * What attaching `names` promises: old props are kept, at most one prop is
   * created per name, every requested name ends up with exactly one prop, an
   * existing prop is reused, other names are untouched, and the performance's
   * rows are exactly those to props with a requested name.
   */
  ghost predicate AttachedWell(props: map<Id, Prop>, links: set<PropLink>, performance: Id, names: seq<string>, a: Attached) {
    && (forall k :: k in props ==> k in a.props && a.props[k] == props[k])
    && |a.props| <= |props| + |names|
    && (forall n :: n in names ==> |PropsNamed(a.props, n)| == 1)
    && (forall n :: n !in names ==> PropsNamed(a.props, n) == PropsNamed(props, n))
    && (forall n :: n in names && PropsNamed(props, n) != {} ==> PropsNamed(a.props, n) == PropsNamed(props, n))
    && (forall l :: l in a.links <==>
          l in links || (l.performance == performance && l.prop in a.props && a.props[l.prop].name in names))
  }

  /** One more name keeps the promises of `AttachedWell`. */
  lemma AttachStep(props: map<Id, Prop>, links: set<PropLink>, performance: Id, init: seq<string>, name: string,
                   a: Attached, got: Got)
    requires AttachedWell(props, links, performance, init, a)
    requires Fetched(a.props, a.next, name, got)
    ensures AttachedWell(props, links, performance, init + [name],
                         Attached(got.props, got.next, a.links + {PropLink(got.prop, performance)}))
  {
    var names := init + [name];
    var b := Attached(got.props, got.next, a.links + {PropLink(got.prop, performance)});
    assert forall n :: n in names <==> n in init || n == name;
    forall n | n in names
      ensures |PropsNamed(b.props, n)| == 1
    {
      if n != name {
        assert PropsNamed(b.props, n) == PropsNamed(a.props, n);
      }
    }
    forall n | n in names && PropsNamed(props, n) != {}
      ensures PropsNamed(b.props, n) == PropsNamed(props, n)
    {
      if n == name {
        assert PropsNamed(a.props, name) == PropsNamed(props, name);
      } else {
        assert PropsNamed(b.props, n) == PropsNamed(a.props, n);
      }
    }
    forall l
      ensures l in b.links <==>
        l in links || (l.performance == performance && l.prop in b.props && b.props[l.prop].name in names)
    {
      if l.performance == performance && l.prop in b.props {
        var m := b.props[l.prop].name;
        assert l.prop in PropsNamed(b.props, m);
        if m != name {
          assert l.prop in PropsNamed(a.props, m);
        }
      }
    }
  }

  /** A prefix that fails makes the whole loop fail with the same error. */
  lemma {:induction false} AttachAllFailureSticks(props: map<Id, Prop>, next: Id, links: set<PropLink>, performance: Id,
                                                  names: seq<string>, i: nat)
    requires KeysBelow(props, next)
    requires i <= |names|
    requires AttachAll(props, next, links, performance, names[..i]).Failure?
    ensures AttachAll(props, next, links, performance, names)
              == AttachAll(props, next, links, performance, names[..i])
    decreases |names|
  {
    if i < |names| {
      var n := |names| - 1;
      assert names[..n][..i] == names[..i];
      AttachAllFailureSticks(props, next, links, performance, names[..n], i);
    } else {
      assert names[..i] == names;
    }
  }

  /**
   * The loop succeeds iff no requested name is already shared by two props;
   * when it fails, the error names such a name; when it succeeds, it keeps
   * the promises of `AttachedWell`.
   */
  lemma {:induction false} AttachAllSound(props: map<Id, Prop>, next: Id, links: set<PropLink>, performance: Id,
                                          names: seq<string>)
    requires KeysBelow(props, next)
    ensures var r := AttachAll(props, next, links, performance, names);
      && (r.Success? <==> forall n :: n in names ==> |PropsNamed(props, n)| <= 1)
      && (r.Success? ==> AttachedWell(props, links, performance, names, r.value))
      && (r.Failure? ==>
            r.error.MultiplePropsNamed? && r.error.name in names && |PropsNamed(props, r.error.name)| >= 2)
    decreases |names|
  {
    if names == [] {
      assert AttachAll(props, next, links, performance, names) == Success(Attached(props, next, links));
    } else {
      var n := |names| - 1;
      var init := names[..n];
      var name := names[n];
      assert names == init + [name];
      assert forall m :: m in names <==> m in init || m == name;
      AttachAllSound(props, next, links, performance, init);
      match AttachAll(props, next, links, performance, init)
      case Failure(e) =>
      case Success(a) =>
        if name !in init {
          assert PropsNamed(a.props, name) == PropsNamed(props, name);
        }
        match GetOrCreateProp(a.props, a.next, name)
        case Failure(e) =>
        case Success(got) =>
          AttachStep(props, links, performance, init, name, a, got);
    }
  }

  /** The names of the props attached to a performance. */
  function LinkedNames(props: map<Id, Prop>, links: set<PropLink>, performance: Id): set<string> {
    set l | l in links && l.performance == performance && l.prop in props :: props[l.prop].name
  }

  /** After clearing and attaching, the performance's props carry exactly the requested names. */
  lemma AttachedNamesExact(props: map<Id, Prop>, links: set<PropLink>, performance: Id, names: seq<string>, a: Attached)
    requires AttachedWell(props, links, performance, names, a)
    requires forall l :: l in links ==> l.performance != performance
    ensures LinkedNames(a.props, a.links, performance) == set n | n in names
  {
    forall n | n in names
      ensures n in LinkedNames(a.props, a.links, performance)
    {
      var named := PropsNamed(a.props, n);
      assert |named| == 1;
      var k :| k in named;
      assert PropLink(k, performance) in a.links;
    }
  }

  /** `performance.props.clear()`: the rows of every other performance stay. */
  function Cleared(links: set<PropLink>, performance: Id): set<PropLink> {
    set l | l in links && l.performance != performance
  }

  /**
   * The whole update: the performance must exist and the request must carry
   * `props`; `show_time` is replaced when sent, then the props are cleared and
   * attached again by name.
   */
  function PerformanceUpdate(db: Db, performance: Id, showTime: Option<Instant>, propNames: Option<seq<string>>)
    : (r: Result<Db, UpdateError>)
    requires KeysBelow(db.props, db.next.prop)
    ensures r.Success? ==> KeysBelow(r.value.props, r.value.next.prop) && db.next.prop <= r.value.next.prop
  {
    if performance !in db.performances then Failure(PerformanceNotFound(performance))
    else if propNames.None? then Failure(PropsMissing)
    else
      var before := db.performances[performance];
      match AttachAll(db.props, db.next.prop, Cleared(db.propLinks, performance), performance, propNames.value)
      case Failure(e) => Failure(e)
      case Success(a) =>
        Success(db.(performances := db.performances[performance := before.(showTime := showTime.GetOr(before.showTime))],
                    props := a.props, propLinks := a.links, next := db.next.(prop := a.next)))
  }

  /** The update commits the schedule and the result of the loop. */
  lemma PerformanceUpdateCommits(db: Db, performance: Id, showTime: Option<Instant>, names: seq<string>, a: Attached)
    requires KeysBelow(db.props, db.next.prop)
    requires performance in db.performances
    requires AttachAll(db.props, db.next.prop, Cleared(db.propLinks, performance), performance, names) == Success(a)
    ensures var before := db.performances[performance];
      PerformanceUpdate(db, performance, showTime, Some(names))
        == Success(db.(performances := db.performances[performance := before.(showTime := showTime.GetOr(before.showTime))],
                       props := a.props, propLinks := a.links, next := db.next.(prop := a.next)))
  {
  }

  /** A failing loop makes the update fail with the loop's error. */
  lemma PerformanceUpdateRollsBack(db: Db, performance: Id, showTime: Option<Instant>, names: seq<string>)
    requires KeysBelow(db.props, db.next.prop)
    requires performance in db.performances
    requires AttachAll(db.props, db.next.prop, Cleared(db.propLinks, performance), performance, names).Failure?
    ensures PerformanceUpdate(db, performance, showTime, Some(names))
      == Failure(AttachAll(db.props, db.next.prop, Cleared(db.propLinks, performance), performance, names).error)
  {
  }

  /**
   * The update succeeds iff the performance exists, `props` was sent and no
   * requested name is already shared by two props; a failure reports why.
   */
  lemma PerformanceUpdateOutcome(db: Db, performance: Id, showTime: Option<Instant>, propNames: Option<seq<string>>)
    requires KeysBelow(db.props, db.next.prop)
    ensures var r := PerformanceUpdate(db, performance, showTime, propNames);
      && (r.Success? <==>
            performance in db.performances && propNames.Some?
            && forall n :: n in propNames.value ==> |PropsNamed(db.props, n)| <= 1)
      && (performance !in db.performances ==> r == Failure(PerformanceNotFound(performance)))
      && (performance in db.performances && propNames.None? ==> r == Failure(PropsMissing))
      && (performance in db.performances && propNames.Some? && r.Failure? ==>
            r.error.MultiplePropsNamed? && r.error.name in propNames.value
            && |PropsNamed(db.props, r.error.name)| >= 2)
  {
    if performance in db.performances && propNames.Some? {
      AttachAllSound(db.props, db.next.prop, Cleared(db.propLinks, performance), performance, propNames.value);
    }
  }

  /**
   * After a successful update the show time is the one sent, or the old one
   * when none was sent; the performance's other fields, every other
   * performance and every table the update does not write stay as they were.
   */
  lemma PerformanceUpdateSchedule(db: Db, performance: Id, showTime: Option<Instant>, names: seq<string>)
    requires KeysBelow(db.props, db.next.prop)
    requires PerformanceUpdate(db, performance, showTime, Some(names)).Success?
    ensures var after := PerformanceUpdate(db, performance, showTime, Some(names)).value;
      && performance in db.performances
      && after.performances.Keys == db.performances.Keys
      && after.performances[performance].showTime == showTime.GetOr(db.performances[performance].showTime)
      && after.performances[performance].(showTime := db.performances[performance].showTime)
           == db.performances[performance]
      && (forall k :: k in db.performances && k != performance ==> after.performances[k] == db.performances[k])
      && after.(performances := db.performances, props := db.props, propLinks := db.propLinks, next := db.next) == db
      && after.next.(prop := db.next.prop) == db.next
  {
  }

  /**
   * After a successful update the performance's props carry exactly the
   * requested names, other performances keep their props, no prop is lost,
   * at most one prop per name is created, and an existing prop is reused.
   */
  lemma PerformanceUpdateProps(db: Db, performance: Id, showTime: Option<Instant>, names: seq<string>)
    requires KeysBelow(db.props, db.next.prop)
    requires PerformanceUpdate(db, performance, showTime, Some(names)).Success?
    ensures var after := PerformanceUpdate(db, performance, showTime, Some(names)).value;
      && LinkedNames(after.props, after.propLinks, performance) == (set n | n in names)
      && (forall l: PropLink :: l.performance != performance ==> (l in after.propLinks <==> l in db.propLinks))
      && (forall k :: k in db.props ==> k in after.props && after.props[k] == db.props[k])
      && |after.props| <= |db.props| + |names|
      && (forall n :: n in names && PropsNamed(db.props, n) != {} ==> PropsNamed(after.props, n) == PropsNamed(db.props, n))
  {
    var cleared := Cleared(db.propLinks, performance);
    AttachAllSound(db.props, db.next.prop, cleared, performance, names);
    var a := AttachAll(db.props, db.next.prop, cleared, performance, names).value;
    AttachedNamesExact(db.props, cleared, performance, names, a);
  }

  /** The prop rows after attaching: the old ones, and new ones from the performance to existing props. */
  lemma AttachedRows(props: map<Id, Prop>, next: Id, links: set<PropLink>, performance: Id, names: seq<string>)
    requires KeysBelow(props, next)
    requires AttachAll(props, next, links, performance, names).Success?
    ensures var a := AttachAll(props, next, links, performance, names).value;
      && props.Keys <= a.props.Keys
      && forall l :: l in a.links ==> l in links || (l.performance == performance && l.prop in a.props)
  {
    AttachAllSound(props, next, links, performance, names);
  }

  /** A successful update leaves a state that satisfies every constraint. */
  lemma PerformanceUpdateKeepsConsistent(db: Db, performance: Id, showTime: Option<Instant>, names: seq<string>)
    requires Consistent(db)
    requires PerformanceUpdate(db, performance, showTime, Some(names)).Success?
    ensures Consistent(PerformanceUpdate(db, performance, showTime, Some(names)).value)
  {
    var cleared := Cleared(db.propLinks, performance);
    AttachedRows(db.props, db.next.prop, cleared, performance, names);
    var after := PerformanceUpdate(db, performance, showTime, Some(names)).value;
    assert forall p :: HallOf(after, p) == HallOf(db, p);
  }
}
