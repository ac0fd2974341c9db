/** The fixed numbers of the game (SetGame/Models/SetGameConstants.swift). */
module GameConstants {
  /** The number of cards that make up a set. */
  const SetSize: nat := 3
  /** The number of cards dealt when a game begins. */
  const InitialDealSize: nat := SetSize * 4
  /** More cards than this on the tableau always contain a set. */
  const MinimumCapSetSize: nat := 20
  /** Score change when a set is formed. */
  const Reward: real := 2.0
  /** Score change for a non-set, a hint, or adding cards when a set is present. */
  const Penalty: real := -1.0

  lemma ConstantValues()
    ensures SetSize == 3
    ensures InitialDealSize == 4 * SetSize == 12
    ensures MinimumCapSetSize == 20
    ensures Reward > 0.0 && Reward == 2.0
    ensures Penalty < 0.0 && Penalty == -1.0
  {
  }
}
