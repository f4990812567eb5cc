/** game/components/character.py: a character's health. */
module GameCharacter {

  /** The default `health`. */
  const DefaultHealth: int := 1

  /** The health left after taking `amount` of damage: never below 0. */
  function DamagedHealth(health: int, amount: int): (h: int)
    ensures h >= 0
    ensures health - amount > 0 ==> h == health - amount
    ensures health - amount <= 0 ==> h == 0
  {
    if health - amount <= 0 then 0 else health - amount
  }

  /** Two hits of non-negative damage leave the health one hit of their sum would: the
      clamp to 0 only matters once, at the end. */
  lemma DamageAccumulates(health: int, a: int, b: int)
    requires a >= 0 && b >= 0
    ensures DamagedHealth(DamagedHealth(health, a), b) == DamagedHealth(health, a + b)
  {
  }

  /** The character component. */
  class Character {
    var health: int

    /** `Character(health)`. */
    constructor (health: int)
      ensures this.health == health
    {
      this.health := health;
    }

    /** `damage(amount)`: the health drops by `amount`; at 0 or below it is set to exactly 0
        and the character is killed (`kill` does nothing else; `killed` says it was
        called). */
    method Damage(amount: int) returns (killed: bool)
      modifies this
      ensures killed <==> old(health) - amount <= 0
      ensures health == DamagedHealth(old(health), amount) && health >= 0
    {
      health := health - amount;
      killed := false;
      if health <= 0 {
        health := 0;
        killed := true;
      }
    }
  }
}
