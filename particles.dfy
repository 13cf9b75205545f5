/**
 * The "copied to clipboard" particle pool of main.c: a fixed array of
 * particles, `Add_Particle` to place a new one and the expiry rule of
 * `Draw_And_Render_Copy_Particles`. Only the slot choice and the integer
 * timing are modelled; positions, velocities and colours are floats.
 */
module Particles {

  /** 2^64: C's `uint64_t` arithmetic is modulo this. */
  const U64Modulus: int := 0x1_0000_0000_0000_0000

  type U64 = x: int | 0 <= x < U64Modulus

  /** `UINT64_MAX`. */
  const U64Max: U64 := U64Modulus - 1

  /** Room in `text`: `snprintf(.., 49, ..)` writes at most 48 characters and a NUL. */
  const TextCapacity: nat := 48

  /** The integer and text fields of a particle (main.c usage). */
  datatype Particle = Particle(startTime: U64, lifetime: U64, alive: bool,
                               clickedColorName: string, text: string)

  /** The notification text, cut to what fits in the particle's buffer. */
  function CopiedText(name: string): (t: string)
    ensures |t| <= TextCapacity
    ensures t <= "Copied " + name + " hex code to clipboard"
    ensures |"Copied " + name + " hex code to clipboard"| <= TextCapacity ==> t == "Copied " + name + " hex code to clipboard"
  {
    var full := "Copied " + name + " hex code to clipboard";
    if |full| <= TextCapacity then full else full[..TextCapacity]
  }

  /** The new particle as it is stored: a copy with its text filled in. */
  function Labelled(p: Particle): (q: Particle)
    ensures q.startTime == p.startTime && q.lifetime == p.lifetime && q.alive == p.alive
    ensures q.clickedColorName == p.clickedColorName
    ensures |q.text| <= TextCapacity && q.text <= "Copied " + p.clickedColorName + " hex code to clipboard"
  {
    p.(text := CopiedText(p.clickedColorName))
  }

  /** Index of the first slot that is not alive, or `|ps|` if all are alive. */
  function FirstFree(ps: seq<Particle>): (k: nat)
    ensures k <= |ps|
    ensures forall j :: 0 <= j < k ==> ps[j].alive
    ensures k < |ps| ==> !ps[k].alive
  {
    if |ps| == 0 then 0
    else if !ps[0].alive then 0
    else 1 + FirstFree(ps[1..])
  }

  /** `k` holds the smallest start time, and no earlier slot holds it as well. */
  ghost predicate IsFirstOldest(ps: seq<Particle>, k: int)
  {
    && 0 <= k < |ps|
    && (forall j :: 0 <= j < |ps| ==> ps[k].startTime <= ps[j].startTime)
    && (forall j :: 0 <= j < k ==> ps[j].startTime > ps[k].startTime)
  }

  /** The slot that eviction picks: the first with the smallest start time. */
  function Oldest(ps: seq<Particle>): (k: nat)
    requires |ps| > 0
    ensures IsFirstOldest(ps, k)
  {
    if |ps| == 1 then 0
    else
      var k := Oldest(ps[..|ps| - 1]);
      if ps[|ps| - 1].startTime < ps[k].startTime then |ps| - 1 else k
  }

  /** What `Add_Particle` needs so that the slot index it writes is valid. */
  predicate CanAdd(ps: seq<Particle>)
  {
    exists j :: 0 <= j < |ps| && (!ps[j].alive || ps[j].startTime < U64Max)
  }

  /**
   * The pool after `Add_Particle`: the first free slot receives the new
   * particle; when every slot is alive, the oldest one is replaced.
   * Every other slot keeps its particle.
   */
  function AddParticleSpec(ps: seq<Particle>, p: Particle): (ps': seq<Particle>)
    requires CanAdd(ps)
    ensures |ps'| == |ps|
    ensures (exists j :: 0 <= j < |ps| && !ps[j].alive) ==>
      exists k :: 0 <= k < |ps| && !ps[k].alive && (forall j :: 0 <= j < k ==> ps[j].alive)
        && ps' == ps[k := Labelled(p)]
    ensures (forall j :: 0 <= j < |ps| ==> ps[j].alive) ==>
      exists k :: IsFirstOldest(ps, k) && ps' == ps[k := Labelled(p)]
  {
    var k := FirstFree(ps);
    if k < |ps| then ps[k := Labelled(p)] else ps[Oldest(ps) := Labelled(p)]
  }

  /** `Add_Particle` (main.c). */
  method AddParticle(particles: array<Particle>, newParticle: Particle)
    requires CanAdd(particles[..])
    modifies particles
    ensures particles[..] == AddParticleSpec(old(particles[..]), newParticle)
  {
    ghost var ps := particles[..];
    var maxTimestamp: int := U64Max;
    var oldestParticleIndex := -1;
    for i := 0 to particles.Length
      invariant particles[..] == ps
      invariant forall j :: 0 <= j < i ==> ps[j].alive
      invariant oldestParticleIndex == -1 ==>
        maxTimestamp == U64Max && forall j :: 0 <= j < i ==> ps[j].startTime == U64Max
      invariant oldestParticleIndex != -1 ==>
        IsFirstOldest(ps[..i], oldestParticleIndex) && maxTimestamp == ps[oldestParticleIndex].startTime
        && maxTimestamp < U64Max
    {
      if !particles[i].alive {
        particles[i] := Labelled(newParticle);
        assert FirstFree(ps) == i;
        return;
      }
      if particles[i].startTime < maxTimestamp {
        maxTimestamp := particles[i].startTime;
        oldestParticleIndex := i;
      }
    }
    assert ps[..particles.Length] == ps;
    assert FirstFree(ps) == |ps|;
    particles[oldestParticleIndex] := Labelled(newParticle);
  }

  /** `ms_timestamp - start_time` in `uint64_t`: wraps when the clock reads earlier. */
  function Elapsed(now: U64, start: U64): (d: U64)
    ensures now >= start ==> d == now - start
    ensures now < start ==> d == now - start + U64Modulus
  {
    (now - start) % U64Modulus
  }

  /** One slot after the expiry rule, read with clock value `now`. */
  function Expire(p: Particle, now: U64): (p': Particle)
    ensures p'.alive <==> p.alive && p.lifetime > Elapsed(now, p.startTime)
    ensures p' == p.(alive := p'.alive)
  {
    if p.alive && !(p.lifetime > Elapsed(now, p.startTime)) then p.(alive := false) else p
  }

  /**
   * The expiry rule of `Draw_And_Render_Copy_Particles` (main.c): each alive
   * slot reads the clock (`clock[i]` for slot i) and dies once its lifetime
   * has elapsed; slots that are not alive are left alone.
   */
  method DrawAndRenderCopyParticles(particles: array<Particle>, clock: seq<U64>)
    requires |clock| == particles.Length
    modifies particles
    ensures forall j :: 0 <= j < particles.Length ==> particles[j] == Expire(old(particles[j]), clock[j])
  {
    for i := 0 to particles.Length
      invariant forall j :: 0 <= j < i ==> particles[j] == Expire(old(particles[j]), clock[j])
      invariant forall j :: i <= j < particles.Length ==> particles[j] == old(particles[j])
    {
      if particles[i].alive {
        var msTimestamp := clock[i];
        if !(particles[i].lifetime > (msTimestamp - particles[i].startTime) % U64Modulus) {
          particles[i] := particles[i].(alive := false);
        }
      }
    }
  }

  /** A particle alive at a later reading was alive at every earlier one since its start. */
  lemma ExpiryMonotone(p: Particle, t1: U64, t2: U64)
    requires p.startTime <= t1 <= t2
    ensures Expire(p, t2).alive ==> Expire(p, t1).alive
  {
  }

  /**
   * The wrap-around case: a clock reading earlier than the start time makes the
   * unsigned difference huge, so the particle dies at once unless its lifetime
   * exceeds what is left of the 64-bit range.
   */
  lemma {:induction false} ClockBehindExpires(p: Particle, now: U64)
    requires p.alive && now < p.startTime && p.lifetime <= U64Modulus - p.startTime
    ensures !Expire(p, now).alive
  {
    assert Elapsed(now, p.startTime) >= U64Modulus - p.startTime;
  }

  /** A freshly added particle whose clock has not advanced past its lifetime survives the next expiry pass. */
  lemma {:induction false} AddedParticleSurvives(ps: seq<Particle>, p: Particle, now: U64)
    requires CanAdd(ps) && p.alive && p.startTime <= now && now - p.startTime < p.lifetime
    ensures exists k ::
      && 0 <= k < |ps|
      && AddParticleSpec(ps, p)[k] == Labelled(p)
      && Expire(AddParticleSpec(ps, p)[k], now).alive
  {
    var ps' := AddParticleSpec(ps, p);
    var k :| 0 <= k < |ps| && ps' == ps[k := Labelled(p)];
    assert ps'[k] == Labelled(p);
  }
}
