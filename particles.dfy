/**
 * The eat-effect particles of the snake game, reduced to their integer
 * `life` counter: their floating-point position and velocity are cosmetic.
 */
module Particles {

  datatype Particle = Particle(life: int)

  /** How many particles one eaten fruit releases. */
  const BurstSize := 10
  /** The life every particle starts with. */
  const ParticleLife := 20

  /** The particles released by one eaten fruit. */
  function Burst(): (r: seq<Particle>)
    ensures |r| == BurstSize
    ensures forall q :: q in r ==> q.life == ParticleLife
  {
    seq(BurstSize, _ => Particle(ParticleLife))
  }

  /** `n` particles, all with life `life`. */
  function Uniform(n: nat, life: int): (r: seq<Particle>)
    ensures |r| == n
    ensures forall i :: 0 <= i < n ==> r[i] == Particle(life)
  {
    seq(n, _ => Particle(life))
  }

  function Aged(p: Particle): Particle {
    p.(life := p.life - 1)
  }

  /**
   * The particle list after one update: every particle loses one unit of
   * life and those left with no life are dropped, the survivors in order.
   */
  function Decayed(ps: seq<Particle>): (r: seq<Particle>)
    ensures |r| <= |ps|
    ensures forall q :: q in r ==> q.life > 0
  {
    if ps == [] then []
    else
      var rest := Decayed(ps[..|ps| - 1]);
      var p := Aged(ps[|ps| - 1]);
      if p.life <= 0 then rest else rest + [p]
  }

  /** The update treats every particle on its own: it distributes over concatenation. */
  lemma {:induction false} DecayedAppend(a: seq<Particle>, b: seq<Particle>)
    ensures Decayed(a + b) == Decayed(a) + Decayed(b)
  {
    if b == [] {
      assert a + b == a;
    } else {
      var b' := b[..|b| - 1];
      assert (a + b)[..|a + b| - 1] == a + b';
      assert (a + b)[|a + b| - 1] == b[|b| - 1];
      DecayedAppend(a, b');
    }
  }

  /** When every particle has more than one unit of life, all survive, each one unit older. */
  lemma {:induction false} DecayedAllSurvive(ps: seq<Particle>)
    requires forall p :: p in ps ==> p.life > 1
    ensures |Decayed(ps)| == |ps|
    ensures forall i :: 0 <= i < |ps| ==> Decayed(ps)[i] == Aged(ps[i])
  {
    if ps != [] {
      var init := ps[..|ps| - 1];
      assert forall p :: p in init ==> p in ps;
      DecayedAllSurvive(init);
      assert ps[|ps| - 1] in ps;
    }
  }

  /** When no particle has more than one unit of life, none survives. */
  lemma {:induction false} DecayedNoneSurvive(ps: seq<Particle>)
    requires forall p :: p in ps ==> p.life <= 1
    ensures Decayed(ps) == []
  {
    if ps != [] {
      var init := ps[..|ps| - 1];
      assert forall p :: p in init ==> p in ps;
      DecayedNoneSurvive(init);
      assert ps[|ps| - 1] in ps;
    }
  }

  /** The update never raises a life above the bound it had. */
  lemma {:induction false} DecayedBelow(ps: seq<Particle>, hi: int)
    requires forall p :: p in ps ==> p.life <= hi
    ensures forall q :: q in Decayed(ps) ==> q.life < hi
  {
    if ps != [] {
      var init := ps[..|ps| - 1];
      assert forall p :: p in init ==> p in ps;
      DecayedBelow(init, hi);
      assert ps[|ps| - 1] in ps;
    }
  }

  /** Updating one more particle of a prefix extends the update of the prefix. */
  lemma DecayedExtend(ps: seq<Particle>, i: nat)
    requires i < |ps|
    ensures Decayed(ps[..i + 1]) == Decayed(ps[..i]) + (if Aged(ps[i]).life <= 0 then [] else [Aged(ps[i])])
  {
    assert ps[..i + 1][..i] == ps[..i];
  }

  /**
   * The list `s` is a prefix `a` of length `k` followed by the particles of
   * `c` from index `i` on: dropping the particle after `a`, or putting `y` in its place,
   * leaves `a` and the particles of `c` after index `i` around the change.
   */
  lemma Splice(s: seq<Particle>, a: seq<Particle>, c: seq<Particle>, i: nat, k: nat, y: Particle)
    requires i < |c| && k == |a| && s == a + c[i..]
    ensures s[..k] + s[k + 1..] == a + c[i + 1..]
    ensures s[..k] + [y] + s[k + 1..] == (a + [y]) + c[i + 1..]
  {
    assert s[..k] == a;
    assert s[k + 1..] == c[i + 1..];
  }

  /**
   * One step of the in-place update: the list holds the update of the first
   * `i` particles of `c`, `k` of them, followed by the rest of `c`. Removing
   * the particle at `k` when it has no life left, or putting it back one unit
   * older, leaves the update of the first `i + 1` followed by the rest.
   */
  lemma UpdateStep(s: seq<Particle>, c: seq<Particle>, i: nat, k: nat)
    requires i < |c| && k == |Decayed(c[..i])| && s == Decayed(c[..i]) + c[i..]
    ensures Aged(c[i]).life <= 0 ==>
      && s[..k] + s[k + 1..] == Decayed(c[..i + 1]) + c[i + 1..]
      && k == |Decayed(c[..i + 1])|
    ensures Aged(c[i]).life > 0 ==>
      && s[..k] + [Aged(c[i])] + s[k + 1..] == Decayed(c[..i + 1]) + c[i + 1..]
      && k + 1 == |Decayed(c[..i + 1])|
  {
    DecayedExtend(c, i);
    Splice(s, Decayed(c[..i]), c, i, k, Aged(c[i]));
  }

  /** The particle list after `n` updates. */
  function Faded(ps: seq<Particle>, n: nat): seq<Particle> {
    if n == 0 then ps else Decayed(Faded(ps, n - 1))
  }

  /** One update of `n` equal particles with more than one unit of life ages them all. */
  lemma DecayedUniform(n: nat, life: int)
    requires life > 1
    ensures Decayed(Uniform(n, life)) == Uniform(n, life - 1)
  {
    var u := Uniform(n, life);
    assert forall p :: p in u ==> p.life == life;
    DecayedAllSurvive(u);
  }

  /** One update of `n` equal particles with at most one unit of life removes them all. */
  lemma DecayedUniformGone(n: nat, life: int)
    requires life <= 1
    ensures Decayed(Uniform(n, life)) == []
  {
    var u := Uniform(n, life);
    assert forall p :: p in u ==> p.life == life;
    DecayedNoneSurvive(u);
  }

  /**
   * A burst lives for 19 updates, all ten particles losing one unit of life
   * per update, and is gone after the 20th.
   */
  lemma {:induction false} BurstLifetime(n: nat)
    requires n <= ParticleLife
    ensures Faded(Burst(), n) == if n < ParticleLife then Uniform(BurstSize, ParticleLife - n) else []
  {
    if n == 0 {
      assert Burst() == Uniform(BurstSize, ParticleLife);
    } else {
      var before := Faded(Burst(), n - 1);
      BurstLifetime(n - 1);
      assert before == Uniform(BurstSize, ParticleLife - (n - 1));
      if n < ParticleLife {
        DecayedUniform(BurstSize, ParticleLife - (n - 1));
      } else {
        DecayedUniformGone(BurstSize, ParticleLife - (n - 1));
      }
    }
  }
}
