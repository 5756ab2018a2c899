/** Translation of policy rule actions into OVN ACL actions. The source
    panics on an action outside the flavour's set; here that is a
    precondition the caller must meet. */
module Actions {

  /** `AdminNetworkPolicyRuleAction` and `BaselineAdminNetworkPolicyRuleAction` values. */
  const RuleActionAllow: string := "Allow"
  const RuleActionDeny: string := "Deny"
  const RuleActionPass: string := "Pass"

  /** OVN northbound ACL action values. */
  const ACLActionAllowRelated: string := "allow-related"
  const ACLActionDrop: string := "drop"
  const ACLActionPass: string := "pass"

  predicate IsANPRuleAction(action: string)
  {
    action == RuleActionAllow || action == RuleActionDeny || action == RuleActionPass
  }

  predicate IsBANPRuleAction(action: string)
  {
    action == RuleActionAllow || action == RuleActionDeny
  }

  /** `GetACLActionForANPRule`: allow, deny and pass map one-to-one onto
      allow-related, drop and pass. */
  function GetACLActionForANPRule(action: string): (ovnACLAction: string)
    requires IsANPRuleAction(action)
    ensures action == RuleActionAllow <==> ovnACLAction == ACLActionAllowRelated
    ensures action == RuleActionDeny <==> ovnACLAction == ACLActionDrop
    ensures action == RuleActionPass <==> ovnACLAction == ACLActionPass
  {
    if action == RuleActionAllow then ACLActionAllowRelated
    else if action == RuleActionDeny then ACLActionDrop
    else ACLActionPass
  }

  /** `GetACLActionForBANPRule`: allow and deny map onto allow-related and
      drop; a baseline rule never yields pass. */
  function GetACLActionForBANPRule(action: string): (ovnACLAction: string)
    requires IsBANPRuleAction(action)
    ensures action == RuleActionAllow <==> ovnACLAction == ACLActionAllowRelated
    ensures action == RuleActionDeny <==> ovnACLAction == ACLActionDrop
    ensures ovnACLAction != ACLActionPass
  {
    if action == RuleActionAllow then ACLActionAllowRelated
    else ACLActionDrop
  }

  /** The baseline actions are a subset of the standard ones and map the same way. */
  lemma BANPAgreesWithANP(action: string)
    requires IsBANPRuleAction(action)
    ensures IsANPRuleAction(action)
    ensures GetACLActionForBANPRule(action) == GetACLActionForANPRule(action)
  {
  }
}
